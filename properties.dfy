/**
 * What the scan promises, proved about the pure description in `Directives`.
 */
module Properties {
  import opened Wrappers
  import opened Cursors
  import opened Directives

  /** Handling `a + b` is handling `a`, then handling `b` from the state `a` left. */
  lemma {:induction false} RenderAppend<S>(a: seq<Segment>, b: seq<Segment>, st: S, run: (S, string) -> (S, string))
    ensures Render(a + b, st, run).text == Render(a, st, run).text + Render(b, Render(a, st, run).state, run).text
    ensures Render(a + b, st, run).state == Render(b, Render(a, st, run).state, run).state
  {
    if a != [] {
      var first := Effect(a[0], st, run);
      assert (a + b)[0] == a[0];
      assert (a + b)[1..] == a[1..] + b;
      RenderAppend(a[1..], b, first.state, run);
    } else {
      assert a + b == b;
    }
  }

  /** Extending the handled segments by one more (the step of the conversion loop). */
  lemma RenderSnoc<S>(done: seq<Segment>, s: Segment, st: S, run: (S, string) -> (S, string), before: string)
    ensures Render(done + [s], st, run).text == Render(done, st, run).text + Effect(s, Render(done, st, run).state, run).text
    ensures Render(done + [s], st, run).state == Effect(s, Render(done, st, run).state, run).state
    ensures LastScript(done + [s], before) == if s.Literal? then LastScript(done, before) else ScriptOf(s)
  {
    RenderAppend(done, [s], st, run);
    assert (done + [s])[..|done|] == done;
  }

  lemma AppendAssoc(a: string, b: string, c: string)
    ensures (a + b) + c == a + (b + c)
  {
  }

  lemma SnocCons(done: seq<Segment>, s: Segment, tail: seq<Segment>)
    ensures (done + [s]) + tail == done + ([s] + tail)
  {
  }

  lemma UnparseCons(s: Segment, rest: seq<Segment>)
    ensures Unparse([s] + rest) == Spelling(s) + Unparse(rest)
  {
    assert ([s] + rest)[0] == s;
    assert ([s] + rest)[1..] == rest;
  }

  /**
   * `done` is what the scan of `src` yields before index `i`, and the scan from
   * `i` yields the rest (the loop invariant of the converter).
   */
  ghost predicate Scanned(src: string, i: nat, done: seq<Segment>)
  {
    done + Lex(src, i).segments == Lex(src, 0).segments && Lex(src, i).failure == Lex(src, 0).failure
  }

  lemma ScannedLiteral(src: string, i: nat, done: seq<Segment>)
    requires i < |src| && !IsDirectiveStart(src, i) && Scanned(src, i, done)
    ensures Scanned(src, i + 1, done + [Literal(src[i])])
  {
    LexLiteral(src, i);
    SnocCons(done, Literal(src[i]), Lex(src, i + 1).segments);
  }

  lemma ScannedDirective(src: string, i: nat, j: nat, done: seq<Segment>)
    requires IsDirectiveStart(src, i) && i + 3 < |src| && Scanned(src, i, done)
    requires Find(src, Terminator(src[i + 2]), i + 3) == Some(j)
    ensures Scanned(src, j + 1, done + [Directive(src[i + 2], src[i + 3..j])])
  {
    LexDirectiveFound(src, i, j);
    SnocCons(done, Directive(src[i + 2], src[i + 3..j]), Lex(src, j + 1).segments);
  }

  /** Where the scan stops on an unterminated directive, everything before it was scanned. */
  lemma ScannedFailure(src: string, i: nat, done: seq<Segment>)
    requires IsDirectiveStart(src, i) && Scanned(src, i, done)
    requires i + 3 >= |src| || Find(src, Terminator(src[i + 2]), i + 3).None?
    ensures done == Lex(src, 0).segments && Lex(src, 0).failure.Some?
  {
    if i + 3 < |src| {
      LexDirective(src, i);
    }
    assert done + [] == done;
  }

  lemma ScannedAll(src: string, done: seq<Segment>)
    requires Scanned(src, |src|, done)
    ensures done == Lex(src, 0).segments && Lex(src, 0).failure.None?
  {
    assert done + [] == done;
  }

  lemma ScannedStart(src: string)
    ensures Scanned(src, 0, [])
  {
    assert [] + Lex(src, 0).segments == Lex(src, 0).segments;
  }

  /**
   * The converter's loop invariant: the scan has reached `pos` having produced
   * `done`, the output buffer went from `out0` to `out` by the rendering of
   * `done`, the engine is in the state that rendering leaves, and the scratch
   * buffer went from `scr0` to `scr` (the last script run, if any).
   */
  ghost predicate Progress<S>(src: string, init: S, run: (S, string) -> (S, string), pos: nat, done: seq<Segment>,
                              out0: string, scr0: string, out: string, st: S, scr: string)
  {
    Scanned(src, pos, done) &&
    out == out0 + Render(done, init, run).text &&
    st == Render(done, init, run).state &&
    scr == LastScript(done, scr0)
  }

  lemma ProgressStart<S>(src: string, init: S, run: (S, string) -> (S, string), out0: string, scr0: string)
    ensures Progress(src, init, run, 0, [], out0, scr0, out0, init, scr0)
  {
    ScannedStart(src);
    assert out0 + [] == out0;
  }

  /** A byte that starts no directive is copied to the output. */
  lemma ProgressLiteral<S>(src: string, init: S, run: (S, string) -> (S, string), pos: nat, c: char,
                           done: seq<Segment>, out0: string, scr0: string, out: string, st: S, scr: string)
    requires pos < |src| && !IsDirectiveStart(src, pos) && c == src[pos]
    requires Progress(src, init, run, pos, done, out0, scr0, out, st, scr)
    ensures Progress(src, init, run, pos + 1, done + [Literal(c)], out0, scr0, out + [c], st, scr)
  {
    ScannedLiteral(src, pos, done);
    RenderSnoc(done, Literal(c), init, run, scr0);
    AppendAssoc(out0, Render(done, init, run).text, [c]);
  }

  /** A terminated directive is run, and the cursor moves past its terminator. */
  lemma ProgressDirective<S>(src: string, init: S, run: (S, string) -> (S, string), pos: nat, d: char, j: nat,
                             done: seq<Segment>, out0: string, scr0: string, out: string, st: S, scr: string)
    requires IsDirectiveStart(src, pos) && pos + 3 < |src| && d == src[pos + 2]
    requires Find(src, Terminator(d), pos + 3) == Some(j)
    requires Progress(src, init, run, pos, done, out0, scr0, out, st, scr)
    ensures var seg := Directive(d, src[pos + 3..j]);
      Progress(src, init, run, j + 1, done + [seg], out0, scr0, out + Effect(seg, st, run).text,
               Effect(seg, st, run).state, ScriptOf(seg))
  {
    var seg := Directive(d, src[pos + 3..j]);
    ScannedDirective(src, pos, j, done);
    RenderSnoc(done, seg, init, run, scr0);
    AppendAssoc(out0, Render(done, init, run).text, Effect(seg, st, run).text);
  }

  /** Where the scan stops on an unterminated directive, the conversion is complete and failed. */
  lemma ProgressFailure<S>(src: string, init: S, run: (S, string) -> (S, string), pos: nat, done: seq<Segment>,
                           out0: string, scr0: string, out: string, st: S, scr: string)
    requires IsDirectiveStart(src, pos)
    requires pos + 3 >= |src| || Find(src, Terminator(src[pos + 2]), pos + 3).None?
    requires Progress(src, init, run, pos, done, out0, scr0, out, st, scr)
    ensures Lex(src, 0).failure.Some?
    ensures out == out0 + Render(Lex(src, 0).segments, init, run).text
    ensures scr == LastScript(Lex(src, 0).segments, scr0)
  {
    ScannedFailure(src, pos, done);
  }

  /** At the end of the source the conversion is complete and succeeded. */
  lemma ProgressAll<S>(src: string, init: S, run: (S, string) -> (S, string), done: seq<Segment>,
                       out0: string, scr0: string, out: string, st: S, scr: string)
    requires Progress(src, init, run, |src|, done, out0, scr0, out, st, scr)
    ensures Lex(src, 0).failure.None?
    ensures out == out0 + Render(Lex(src, 0).segments, init, run).text
    ensures scr == LastScript(Lex(src, 0).segments, scr0)
  {
    ScannedAll(src, done);
  }

  /** One unfolding of `Lex` where no directive starts. */
  lemma LexLiteral(src: string, i: nat)
    requires i < |src| && !IsDirectiveStart(src, i)
    ensures Lex(src, i) == Cons(Literal(src[i]), Lex(src, i + 1))
  {
  }

  /** One unfolding of `Lex` at a directive whose disambiguator is not the last byte. */
  lemma LexDirective(src: string, i: nat)
    requires IsDirectiveStart(src, i) && i + 3 < |src|
    ensures var f := Find(src, Terminator(src[i + 2]), i + 3);
      Lex(src, i) == if f.None? then Lexed([], Some(MissingTerminator(src[i + 2])))
                     else Cons(Directive(src[i + 2], src[i + 3..f.value]), Lex(src, f.value + 1))
  {
  }

  lemma LexDirectiveFound(src: string, i: nat, j: nat)
    requires IsDirectiveStart(src, i) && i + 3 < |src|
    requires Find(src, Terminator(src[i + 2]), i + 3) == Some(j)
    ensures Lex(src, i) == Cons(Directive(src[i + 2], src[i + 3..j]), Lex(src, j + 1))
  {
    LexDirective(src, i);
  }

  lemma SpellingDirective(d: char, body: string)
    requires d == '$' || d == '{'
    ensures Spelling(Directive(d, body)) == ['@', '@', d] + body + [Terminator(d)]
  {
  }

  /** `r` spells a prefix of `src[i..]`, the remainder being empty or an unterminated directive. */
  ghost predicate Spells(src: string, i: nat, r: Lexed)
    requires i <= |src|
  {
    var k := i + |Unparse(r.segments)|;
    k <= |src| && src[i..k] == Unparse(r.segments) && StopsAt(src, k, r.failure)
  }

  /** The scan stops at `k`: at the end of `src` on success, else at an unterminated directive. */
  ghost predicate StopsAt(src: string, k: nat, failure: Option<Failure>)
  {
    (failure.None? <==> k == |src|) &&
    (failure.Some? ==> Unterminated(src, k, failure.value))
  }

  /** Spelling one more segment in front extends what is spelled to the left. */
  lemma SpellsPrepend(src: string, i: nat, m: nat, s: Segment, rest: Lexed)
    requires i <= m <= |src| && src[i..m] == Spelling(s)
    requires Spells(src, m, rest)
    ensures Spells(src, i, Cons(s, rest))
  {
    var r := Cons(s, rest);
    assert r.segments == [s] + rest.segments && r.failure == rest.failure;
    UnparseCons(s, rest.segments);
    var k := m + |Unparse(rest.segments)|;
    assert i + |Unparse(r.segments)| == k;
    assert StopsAt(src, k, r.failure);
    SliceSplit(src, i, m, k);
    assert src[i..k] == Unparse(r.segments);
  }

  lemma SliceSplit(src: string, i: nat, m: nat, k: nat)
    requires i <= m <= k <= |src|
    ensures src[i..k] == src[i..m] + src[m..k]
  {
  }

  lemma SpellsLiteral(src: string, i: nat)
    requires i < |src| && !IsDirectiveStart(src, i)
    requires Spells(src, i + 1, Lex(src, i + 1))
    ensures Spells(src, i, Lex(src, i))
  {
    LexLiteral(src, i);
    assert src[i..i + 1] == Spelling(Literal(src[i]));
    SpellsPrepend(src, i, i + 1, Literal(src[i]), Lex(src, i + 1));
  }

  /** The source from a directive start `i` through its terminator at `j` is the directive's spelling. */
  lemma SpellDirective(src: string, i: nat, j: nat)
    requires IsDirectiveStart(src, i) && i + 3 <= j < |src|
    requires src[j] == Terminator(src[i + 2])
    ensures src[i..j + 1] == Spelling(Directive(src[i + 2], src[i + 3..j]))
  {
    var d := src[i + 2];
    SpellingDirective(d, src[i + 3..j]);
    assert src[i..i + 3] == ['@', '@', d];
    assert src[i..j + 1] == src[i..i + 3] + src[i + 3..j] + [src[j]];
  }

  lemma SpellsDirective(src: string, i: nat, j: nat, rest: Lexed)
    requires IsDirectiveStart(src, i) && i + 3 <= j < |src|
    requires src[j] == Terminator(src[i + 2])
    requires Spells(src, j + 1, rest)
    ensures Spells(src, i, Cons(Directive(src[i + 2], src[i + 3..j]), rest))
  {
    SpellDirective(src, i, j);
    SpellsPrepend(src, i, j + 1, Directive(src[i + 2], src[i + 3..j]), rest);
  }

  lemma SpellsFailure(src: string, i: nat)
    requires IsDirectiveStart(src, i)
    requires i + 3 == |src| || Find(src, Terminator(src[i + 2]), i + 3).None?
    ensures Spells(src, i, Lex(src, i))
  {
    if i + 3 < |src| {
      LexDirective(src, i);
    }
  }

  /**
   * The scan from `i` consumes a prefix of `src[i..]` exactly as it is spelled:
   * all of it when it succeeds, and otherwise up to an unterminated directive,
   * which is the failure reported.
   */
  lemma {:induction false} LexCovers(src: string, i: nat)
    requires i <= |src|
    decreases |src| - i
    ensures Spells(src, i, Lex(src, i))
  {
    if i == |src| {
    } else if !IsDirectiveStart(src, i) {
      LexCovers(src, i + 1);
      SpellsLiteral(src, i);
    } else if i + 3 == |src| || Find(src, Terminator(src[i + 2]), i + 3).None? {
      SpellsFailure(src, i);
    } else {
      var j := Find(src, Terminator(src[i + 2]), i + 3).value;
      LexCovers(src, j + 1);
      LexDirectiveFound(src, i, j);
      SpellsDirective(src, i, j, Lex(src, j + 1));
    }
  }

  /** A successful scan spells the whole source back. */
  lemma LexRoundTrip(src: string)
    requires Lex(src, 0).failure.None?
    ensures Unparse(Lex(src, 0).segments) == src
  {
    LexCovers(src, 0);
    assert src[0..|src|] == src;
  }

  /**
   * A failed scan spells a prefix of the source back, and right after that
   * prefix starts the unterminated directive that the failure reports.
   */
  lemma LexFailure(src: string)
    requires Lex(src, 0).failure.Some?
    ensures |Unparse(Lex(src, 0).segments)| < |src|
    ensures src[..|Unparse(Lex(src, 0).segments)|] == Unparse(Lex(src, 0).segments)
    ensures Unterminated(src, |Unparse(Lex(src, 0).segments)|, Lex(src, 0).failure.value)
  {
    LexCovers(src, 0);
  }

  /** A statement body never holds a newline, an expression body never a `}`. */
  ghost predicate BodyIsTerminatorFree(s: Segment)
  {
    match s
    case Literal(_) => true
    case Statement(body) => forall k :: 0 <= k < |body| ==> body[k] != '\n'
    case Expression(body) => forall k :: 0 <= k < |body| ==> body[k] != '}'
  }

  lemma {:induction false} LexBodies(src: string, i: nat)
    decreases |src| - i
    ensures forall n :: 0 <= n < |Lex(src, i).segments| ==> BodyIsTerminatorFree(Lex(src, i).segments[n])
  {
    if i < |src| {
      if !IsDirectiveStart(src, i) {
        LexBodies(src, i + 1);
      } else if i + 3 < |src| {
        var d := src[i + 2];
        match Find(src, Terminator(d), i + 3)
        case None =>
        case Some(j) =>
          LexBodies(src, j + 1);
          var body := src[i + 3..j];
          assert forall k :: 0 <= k < |body| ==> body[k] == src[i + 3 + k];
          assert BodyIsTerminatorFree(Directive(d, body));
      }
    }
  }

  /** Literal segments emit their bytes and leave the engine alone. */
  lemma {:induction false} RenderLiterals<S>(s: string, st: S, run: (S, string) -> (S, string))
    ensures Render(Literals(s), st, run) == Rendered(s, st)
  {
    if s != [] {
      var segs := Literals(s);
      assert segs[0] == Literal(s[0]) && segs[1..] == Literals(s[1..]);
      RenderLiterals(s[1..], st, run);
      assert [s[0]] + s[1..] == s;
    }
  }

  /**
   * The scan from `i` is nothing but literals (and succeeds) exactly when no
   * `@@$` or `@@{` starts at or after `i`.
   */
  lemma {:induction false} LexNoDirective(src: string, i: nat)
    requires i <= |src|
    decreases |src| - i
    ensures (forall j :: i <= j < |src| ==> !IsDirectiveStart(src, j)) <==> Lex(src, i) == Lexed(Literals(src[i..]), None)
  {
    if i < |src| {
      LexNoDirective(src, i + 1);
      var lits := Literals(src[i..]);
      assert lits == [Literal(src[i])] + Literals(src[i + 1..]) by {
        assert src[i..][0] == src[i] && src[i..][1..] == src[i + 1..];
      }
      if Lex(src, i) == Lexed(lits, None) {
        LexAtDirective(src, i);
        assert !IsDirectiveStart(src, i);
        assert Lex(src, i + 1).segments == Lex(src, i).segments[1..];
      }
    }
  }

  /** A run of bytes none of which starts a directive is scanned as that many literals. */
  lemma {:induction false} LexLiteralRun(src: string, i: nat, j: nat)
    requires i <= j <= |src|
    requires forall k :: i <= k < j ==> !IsDirectiveStart(src, k)
    decreases j - i
    ensures Lex(src, i) == Lexed(Literals(src[i..j]) + Lex(src, j).segments, Lex(src, j).failure)
  {
    if i < j {
      LexLiteralRun(src, i + 1, j);
      LexLiteral(src, i);
      var rest := Lex(src, j);
      LiteralsFront(src, i, j);
      ConsAssoc(Literal(src[i]), Literals(src[i + 1..j]), rest.segments);
    } else {
      assert src[i..j] == [];
    }
  }

  lemma LiteralsFront(src: string, i: nat, j: nat)
    requires i < j <= |src|
    ensures Literals(src[i..j]) == [Literal(src[i])] + Literals(src[i + 1..j])
  {
    assert src[i..j][0] == src[i] && src[i..j][1..] == src[i + 1..j];
  }

  lemma ConsAssoc(s: Segment, a: seq<Segment>, b: seq<Segment>)
    ensures [s] + (a + b) == ([s] + a) + b
  {
  }

  /** Rendering literals first emits their bytes, then renders the rest from the same state. */
  lemma RenderLiteralsThen<S>(s: string, rest: seq<Segment>, st: S, run: (S, string) -> (S, string))
    ensures Render(Literals(s) + rest, st, run) == Rendered(s + Render(rest, st, run).text, Render(rest, st, run).state)
  {
    RenderAppend(Literals(s), rest, st, run);
    RenderLiterals(s, st, run);
  }

  /** At a directive the scan fails or yields a directive segment, never a literal. */
  lemma LexAtDirective(src: string, i: nat)
    ensures IsDirectiveStart(src, i) ==> Lex(src, i).failure.Some? || !Lex(src, i).segments[0].Literal?
  {
    if IsDirectiveStart(src, i) && i + 3 < |src| {
      LexDirective(src, i);
    }
  }

  /** A source without any `@` is copied byte for byte, and the conversion succeeds. */
  lemma NoAtIsIdentity<S>(src: string, st: S, run: (S, string) -> (S, string))
    requires forall k :: 0 <= k < |src| ==> src[k] != '@'
    ensures Lex(src, 0).failure == None
    ensures Render(Lex(src, 0).segments, st, run) == Rendered(src, st)
  {
    LexNoDirective(src, 0);
    assert src[0..] == src;
    RenderLiterals(src, st, run);
  }

  /**
   * An `@` that does not start `@@$` or `@@{` (including a final `@` or `@@`)
   * is emitted as one literal `@`, and scanning goes on at the next byte.
   */
  lemma PassThroughAt(src: string, i: nat)
    requires i < |src| && src[i] == '@'
    requires i + 1 == |src| || src[i + 1] != '@' || i + 2 == |src| || (src[i + 2] != '$' && src[i + 2] != '{')
    ensures Lex(src, i) == Cons(Literal('@'), Lex(src, i + 1))
  {
  }

  /**
   * `@@$` or `@@{` as the last three bytes: the scan that reaches it fails at
   * it, and so the conversion of the whole source fails.
   */
  lemma DirectiveAtEnd(src: string, i: nat)
    requires IsDirectiveStart(src, i) && i + 3 == |src|
    ensures Lex(src, i) == Lexed([], Some(EndOfSource(src[i + 2])))
    ensures Lex(src, 0).failure.Some?
  {
    TailReached(src, 0);
  }

  /**
   * With `@@$` or `@@{` as the last three bytes, every scan that starts before
   * them reaches them: no body can end inside them, since they hold neither a
   * newline nor a `}`.
   */
  lemma {:induction false} TailReached(src: string, i: nat)
    requires |src| >= 3 && IsDirectiveStart(src, |src| - 3) && i <= |src| - 3
    decreases |src| - i
    ensures Lex(src, i).failure.Some?
  {
    if i == |src| - 3 {
    } else if !IsDirectiveStart(src, i) {
      LexLiteral(src, i);
      TailReached(src, i + 1);
    } else {
      LexDirective(src, i);
      var f := Find(src, Terminator(src[i + 2]), i + 3);
      if f.Some? {
        assert f.value < |src| - 3 by {
          assert src[f.value] == Terminator(src[i + 2]);
        }
        TailReached(src, f.value + 1);
      }
    }
  }

  /** `@@$` with no newline after it: the conversion fails. */
  lemma StatementUnterminated(src: string, i: nat)
    requires i + 3 < |src| && src[i] == '@' && src[i + 1] == '@' && src[i + 2] == '$'
    requires forall k :: i + 3 <= k < |src| ==> src[k] != '\n'
    ensures Lex(src, i) == Lexed([], Some(MissingTerminator('$')))
  {
    LexDirective(src, i);
  }

  /** `@@$`: the body runs to the first newline `j`, which is consumed but not emitted. */
  lemma StatementAt(src: string, i: nat, j: nat)
    requires i + 2 < |src| && src[i] == '@' && src[i + 1] == '@' && src[i + 2] == '$'
    requires i + 3 <= j < |src| && src[j] == '\n' && (forall k :: i + 3 <= k < j ==> src[k] != '\n')
    ensures Lex(src, i) == Cons(Statement(src[i + 3..j]), Lex(src, j + 1))
  {
    LexDirective(src, i);
  }

  /** `@@{` with no `}` after it: the conversion fails. */
  lemma ExpressionUnterminated(src: string, i: nat)
    requires i + 3 < |src| && src[i] == '@' && src[i + 1] == '@' && src[i + 2] == '{'
    requires forall k :: i + 3 <= k < |src| ==> src[k] != '}'
    ensures Lex(src, i) == Lexed([], Some(MissingTerminator('{')))
  {
    LexDirective(src, i);
  }

  /** `@@{`: the body runs to the first `}` at `j` (braces are not balanced); scanning resumes after it. */
  lemma ExpressionAt(src: string, i: nat, j: nat)
    requires i + 2 < |src| && src[i] == '@' && src[i + 1] == '@' && src[i + 2] == '{'
    requires i + 3 <= j < |src| && src[j] == '}' && (forall k :: i + 3 <= k < j ==> src[k] != '}')
    ensures Lex(src, i) == Cons(Expression(src[i + 3..j]), Lex(src, j + 1))
  {
    LexDirective(src, i);
  }

  /**
   * `@@{body}` between two runs of text without `@`: the runs are copied and
   * the expression's output is spliced in between them.
   */
  lemma ExpressionSplice<S>(pre: string, body: string, post: string, st: S, run: (S, string) -> (S, string))
    requires forall k :: 0 <= k < |pre| ==> pre[k] != '@'
    requires forall k :: 0 <= k < |body| ==> body[k] != '}'
    requires forall k :: 0 <= k < |post| ==> post[k] != '@'
    ensures Lex(pre + ("@@{" + body + "}") + post, 0) == Lexed(Literals(pre) + ([Expression(body)] + Literals(post)), None)
    ensures Render(Lex(pre + ("@@{" + body + "}") + post, 0).segments, st, run).text
            == pre + run(st, ScriptOf(Expression(body))).1 + post
  {
    var mid := "@@{" + body + "}";
    var src := pre + mid + post;
    var e := Expression(body);
    SpliceLex(pre, mid, post);
    assert mid == ['@', '@', '{'] + body + ['}'];
    DirectiveInside(pre, mid, '{', body, post);
    assert Lex(src, |pre|) == Lexed([e] + Literals(post), None);
    ExpressionSpliceRender(pre, e, post, st, run);
  }

  /**
   * `@@$body` and its newline between two runs of text without `@`: the runs
   * are copied, the directive itself leaves nothing, and the engine ends in
   * the state the statement left.
   */
  lemma StatementSplice<S>(pre: string, body: string, post: string, st: S, run: (S, string) -> (S, string))
    requires forall k :: 0 <= k < |pre| ==> pre[k] != '@'
    requires forall k :: 0 <= k < |body| ==> body[k] != '\n'
    requires forall k :: 0 <= k < |post| ==> post[k] != '@'
    ensures Lex(pre + ("@@$" + body + "\n") + post, 0) == Lexed(Literals(pre) + ([Statement(body)] + Literals(post)), None)
    ensures Render(Lex(pre + ("@@$" + body + "\n") + post, 0).segments, st, run) == Rendered(pre + post, run(st, body).0)
  {
    var mid := "@@$" + body + "\n";
    var src := pre + mid + post;
    var e := Statement(body);
    SpliceLex(pre, mid, post);
    assert mid == ['@', '@', '$'] + body + ['\n'];
    DirectiveInside(pre, mid, '$', body, post);
    assert Lex(src, |pre|) == Lexed([e] + Literals(post), None);
    StatementSpliceRender(pre, e, post, st, run);
  }

  /**
   * A statement and then an expression between two runs of text without `@`:
   * the one interpreter runs the expression in the state the statement left.
   */
  lemma StatementThenExpressionSplice<S>(pre: string, b1: string, b2: string, post: string,
                                         st: S, run: (S, string) -> (S, string))
    requires forall k :: 0 <= k < |pre| ==> pre[k] != '@'
    requires forall k :: 0 <= k < |b1| ==> b1[k] != '\n'
    requires forall k :: 0 <= k < |b2| ==> b2[k] != '}'
    requires forall k :: 0 <= k < |post| ==> post[k] != '@'
    ensures Lex(pre + (("@@$" + b1 + "\n") + ("@@{" + b2 + "}")) + post, 0)
            == Lexed(Literals(pre) + ([Statement(b1)] + ([Expression(b2)] + Literals(post))), None)
    ensures Render(Lex(pre + (("@@$" + b1 + "\n") + ("@@{" + b2 + "}")) + post, 0).segments, st, run).text
            == pre + run(run(st, b1).0, ScriptOf(Expression(b2))).1 + post
  {
    var m1, m2 := "@@$" + b1 + "\n", "@@{" + b2 + "}";
    assert m1 == ['@', '@', '$'] + b1 + ['\n'];
    assert m2 == ['@', '@', '{'] + b2 + ['}'];
    TwoDirectivesLex(pre + (m1 + m2) + post, pre, m1, b1, m2, b2, post);
    var tail := [Expression(b2)] + Literals(post);
    var rest := [Statement(b1)] + tail;
    RenderLiteralsThen(pre, rest, st, run);
    assert rest[0] == Statement(b1) && rest[1..] == tail;
    var st1 := run(st, b1).0;
    assert tail[0] == Expression(b2) && tail[1..] == Literals(post);
    RenderLiterals(post, run(st1, ScriptOf(Expression(b2))).0, run);
    assert Render(tail, st1, run).text == run(st1, ScriptOf(Expression(b2))).1 + post;
    assert Render(rest, st, run).text == Render(tail, st1, run).text;
    AppendAssoc(pre, run(st1, ScriptOf(Expression(b2))).1, post);
  }

  /** The scan of a statement and an expression, each spelled out in full, between two runs without `@`. */
  lemma TwoDirectivesLex(src: string, pre: string, m1: string, b1: string, m2: string, b2: string, post: string)
    requires src == pre + (m1 + m2) + post
    requires forall k :: 0 <= k < |pre| ==> pre[k] != '@'
    requires forall k :: 0 <= k < |post| ==> post[k] != '@'
    requires m1 == ['@', '@', '$'] + b1 + ['\n'] && forall k :: 0 <= k < |b1| ==> b1[k] != '\n'
    requires m2 == ['@', '@', '{'] + b2 + ['}'] && forall k :: 0 <= k < |b2| ==> b2[k] != '}'
    ensures Lex(src, 0) == Lexed(Literals(pre) + ([Statement(b1)] + ([Expression(b2)] + Literals(post))), None)
  {
    var p, j1 := |pre|, |pre| + |m1| - 1;
    var j2 := j1 + |m2|;
    TwoDirectivesSlices(src, pre, m1, b1, m2, b2, post);
    TwoDirectivesAt(src, p, j1, j2);
    LexedRename(Lex(src, 0), src[0..p], pre, src[p + 3..j1], b1, src[j1 + 4..j2], b2, src[j2 + 1..], post);
  }

  lemma LexedRename(r: Lexed, a: string, a': string, b: string, b': string, c: string, c': string, e: string, e': string)
    requires r == Lexed(Literals(a) + ([Statement(b)] + ([Expression(c)] + Literals(e))), None)
    requires a == a' && b == b' && c == c' && e == e'
    ensures r == Lexed(Literals(a') + ([Statement(b')] + ([Expression(c')] + Literals(e'))), None)
  {
  }

  /** Where the parts of a statement followed by an expression sit in the whole source. */
  lemma TwoDirectivesSlices(src: string, pre: string, m1: string, b1: string, m2: string, b2: string, post: string)
    requires src == pre + (m1 + m2) + post
    requires forall k :: 0 <= k < |pre| ==> pre[k] != '@'
    requires forall k :: 0 <= k < |post| ==> post[k] != '@'
    requires m1 == ['@', '@', '$'] + b1 + ['\n'] && forall k :: 0 <= k < |b1| ==> b1[k] != '\n'
    requires m2 == ['@', '@', '{'] + b2 + ['}'] && forall k :: 0 <= k < |b2| ==> b2[k] != '}'
    ensures var p, j1 := |pre|, |pre| + |m1| - 1;
      var j2 := j1 + |m2|;
      j2 < |src| && src[p] == '@' && src[p + 1] == '@' && src[p + 2] == '$' && src[j1] == '\n' &&
      src[j1 + 1] == '@' && src[j1 + 2] == '@' && src[j1 + 3] == '{' && src[j2] == '}' &&
      src[0..p] == pre && src[p + 3..j1] == b1 && src[j1 + 4..j2] == b2 && src[j2 + 1..] == post &&
      (forall k :: p + 3 <= k < j1 ==> src[k] != '\n') && (forall k :: j1 + 4 <= k < j2 ==> src[k] != '}')
  {
    var p, j1 := |pre|, |pre| + |m1| - 1;
    var j2 := j1 + |m2|;
    AppendAssoc(pre, m1, m2);
    assert src == pre + m1 + (m2 + post) by {
      AppendAssoc(pre + m1, m2, post);
    }
    DirectiveSlices(pre, '$', b1, '\n', m2 + post);
    Absent(src, p + 3, j1, '\n');
    var pm := pre + m1;
    assert src == pm + m2 + post;
    DirectiveSlices(pm, '{', b2, '}', post);
    Absent(src, j1 + 4, j2, '}');
    Split3(pre, m1 + m2, post);
    Split3(pm, m2, post);
  }

  /**
   * A statement at `p` ending at the newline `j1`, right after it an expression
   * ending at the `}` at `j2`, and no `@` before `p` or after `j2`.
   */
  lemma TwoDirectivesAt(src: string, p: nat, j1: nat, j2: nat)
    requires p + 3 <= j1 && j1 + 4 <= j2 < |src|
    requires src[p] == '@' && src[p + 1] == '@' && src[p + 2] == '$' && src[j1] == '\n'
    requires src[j1 + 1] == '@' && src[j1 + 2] == '@' && src[j1 + 3] == '{' && src[j2] == '}'
    requires (forall k :: p + 3 <= k < j1 ==> src[k] != '\n') && (forall k :: j1 + 4 <= k < j2 ==> src[k] != '}')
    requires forall k :: 0 <= k < p ==> src[k] != '@'
    requires forall k :: j2 < k < |src| ==> src[k] != '@'
    ensures Lex(src, 0) == Lexed(Literals(src[0..p]) + ([Statement(src[p + 3..j1])] +
                                  ([Expression(src[j1 + 4..j2])] + Literals(src[j2 + 1..]))), None)
  {
    var q := j2 + 1;
    assert forall j :: q <= j < |src| ==> !IsDirectiveStart(src, j);
    LexNoDirective(src, q);
    var lits := Literals(src[q..]);
    ExpressionAt(src, j1 + 1, j2);
    var e := Expression(src[j1 + 4..j2]);
    assert Lex(src, j1 + 1) == Lexed([e] + lits, None);
    StatementAt(src, p, j1);
    var rest := [Statement(src[p + 3..j1])] + ([e] + lits);
    assert Lex(src, p) == Lexed(rest, None);
    assert forall k :: 0 <= k < p ==> !IsDirectiveStart(src, k);
    LexLiteralRun(src, 0, p);
  }

  lemma StatementSpliceRender<S>(pre: string, e: Segment, post: string, st: S, run: (S, string) -> (S, string))
    requires e.Statement?
    ensures Render(Literals(pre) + ([e] + Literals(post)), st, run) == Rendered(pre + post, run(st, e.body).0)
  {
    var rest := [e] + Literals(post);
    RenderLiteralsThen(pre, rest, st, run);
    assert rest[0] == e && rest[1..] == Literals(post);
    RenderLiterals(post, run(st, e.body).0, run);
    assert Effect(e, st, run).text + post == post;
  }

  /** The scan of `mid`, a directive spelled out in full, placed after `pre`. */
  lemma DirectiveInside(pre: string, mid: string, d: char, body: string, post: string)
    requires d == '$' || d == '{'
    requires mid == ['@', '@', d] + body + [Terminator(d)]
    requires forall k :: 0 <= k < |body| ==> body[k] != Terminator(d)
    ensures Lex(pre + mid + post, |pre|) == Cons(Directive(d, body), Lex(pre + mid + post, |pre| + |mid|))
  {
    var src := pre + mid + post;
    var p, j := |pre|, |pre| + 3 + |body|;
    DirectiveSlices(pre, d, body, Terminator(d), post);
    assert src[p + 3..j] == body;
    Absent(src, p + 3, j, Terminator(d));
    if d == '$' {
      StatementAt(src, p, j);
    } else {
      ExpressionAt(src, p, j);
    }
  }

  /** Where the parts of `@@d body t` sit in `pre + ("@@" + [d] + body + [t]) + post`. */
  lemma DirectiveSlices(pre: string, d: char, body: string, t: char, post: string)
    ensures var src := pre + (['@', '@', d] + body + [t]) + post;
      var p, j := |pre|, |pre| + 3 + |body|;
      j < |src| && src[p] == '@' && src[p + 1] == '@' && src[p + 2] == d && src[j] == t && src[p + 3..j] == body
  {
    var mid := ['@', '@', d] + body + [t];
    var src := pre + mid + post;
    var p, j := |pre|, |pre| + 3 + |body|;
    Split3(pre, mid, post);
    assert src[p] == mid[0] && src[p + 1] == mid[1] && src[p + 2] == mid[2] && src[j] == mid[3 + |body|];
    Split3(['@', '@', d], body, [t]);
    SliceOfSlice(src, p, j + 1, 3, 3 + |body|);
  }

  lemma ExpressionSpliceRender<S>(pre: string, e: Segment, post: string, st: S, run: (S, string) -> (S, string))
    requires e.Expression?
    ensures Render(Literals(pre) + ([e] + Literals(post)), st, run).text == pre + run(st, ScriptOf(e)).1 + post
  {
    var rest := [e] + Literals(post);
    RenderLiteralsThen(pre, rest, st, run);
    assert rest[0] == e && rest[1..] == Literals(post);
    RenderLiterals(post, run(st, ScriptOf(e)).0, run);
    assert Render(rest, st, run).text == run(st, ScriptOf(e)).1 + post;
    AppendAssoc(pre, run(st, ScriptOf(e)).1, post);
  }

  /**
   * Before and after a middle part, runs of text without `@` are scanned as
   * literals.
   */
  lemma SpliceLex(pre: string, mid: string, post: string)
    requires forall k :: 0 <= k < |pre| ==> pre[k] != '@'
    requires forall k :: 0 <= k < |post| ==> post[k] != '@'
    ensures Lex(pre + mid + post, 0)
            == Lexed(Literals(pre) + Lex(pre + mid + post, |pre|).segments, Lex(pre + mid + post, |pre|).failure)
    ensures Lex(pre + mid + post, |pre| + |mid|) == Lexed(Literals(post), None)
  {
    var src := pre + mid + post;
    var p, q := |pre|, |pre| + |mid|;
    Split3(pre, mid, post);
    assert forall k :: 0 <= k < p ==> src[k] == src[..p][k];
    LexLiteralRun(src, 0, p);
    assert src[0..p] == pre;
    assert forall k :: q <= k < |src| ==> src[k] == src[q..][k - q];
    LexNoDirective(src, q);
  }

  /** A byte absent from a slice is absent from that range of the whole. */
  lemma Absent(s: string, a: nat, b: nat, c: char)
    requires a <= b <= |s| && forall k :: 0 <= k < |s[a..b]| ==> s[a..b][k] != c
    ensures forall k :: a <= k < b ==> s[k] != c
  {
    forall k | a <= k < b
      ensures s[k] != c
    {
      assert s[k] == s[a..b][k - a];
    }
  }

  lemma SliceOfSlice(s: string, a: nat, b: nat, c: nat, d: nat)
    requires a <= b <= |s| && c <= d <= b - a
    ensures s[a..b][c..d] == s[a + c..a + d]
  {
    assert forall k :: 0 <= k < d - c ==> s[a..b][c..d][k] == s[a + c + k];
  }

  /** The three parts of `a + b + c` are its slices. */
  lemma Split3(a: string, b: string, c: string)
    ensures (a + b + c)[..|a|] == a
    ensures (a + b + c)[|a|..|a| + |b|] == b
    ensures (a + b + c)[|a| + |b|..] == c
  {
    var s := a + b + c;
    assert s[..|a| + |b|] == a + b;
  }
}
