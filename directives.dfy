/**
 * A pure description of one conversion. `Lex` splits the source into the
 * segments the scanner recognises (what it does depends on the source's
 * syntax only); `Render` runs those segments through the engine, threading
 * its state, and yields the text appended to the output. The imperative
 * converter is proved to compute exactly `Render(Lex(source, 0))`.
 */
module Directives {
  import opened Wrappers
  import opened Cursors

  /** One recognised piece of the source. */
  datatype Segment =
    | Literal(c: char)          // a byte copied to the output as it is
    | Statement(body: string)   // `@@$<body>\n`: executed, output discarded
    | Expression(body: string)  // `@@{<body>}`: evaluated, output captured

  /** The three checks that make a conversion fail; the disambiguator is the byte after `@@`. */
  datatype Failure =
    | EndOfSource(disambiguator: char)        // the disambiguator is the last byte of the source
    | MissingTerminator(disambiguator: char)  // no closing newline / `}` follows

  /** The segments scanned, and the failure that stopped the scan, if any. */
  datatype Lexed = Lexed(segments: seq<Segment>, failure: Option<Failure>)

  /** `@@$` or `@@{` starts at index `i`. */
  predicate IsDirectiveStart(src: string, i: nat)
  {
    i + 2 < |src| && src[i] == '@' && src[i + 1] == '@' && (src[i + 2] == '$' || src[i + 2] == '{')
  }

  /** The byte that ends the body of the directive with this disambiguator. */
  function Terminator(disambiguator: char): char
  {
    if disambiguator == '$' then '\n' else '}'
  }

  function Directive(disambiguator: char, body: string): Segment
  {
    if disambiguator == '$' then Statement(body) else Expression(body)
  }

  function Cons(s: Segment, rest: Lexed): Lexed
  {
    Lexed([s] + rest.segments, rest.failure)
  }

  /** The scan of `src` from index `i` on, one loop iteration per segment. */
  function Lex(src: string, i: nat): Lexed
    decreases |src| - i
  {
    if i >= |src| then Lexed([], None)
    else if !IsDirectiveStart(src, i) then Cons(Literal(src[i]), Lex(src, i + 1))
    else
      var d := src[i + 2];
      if i + 3 >= |src| then Lexed([], Some(EndOfSource(d)))
      else match Find(src, Terminator(d), i + 3)
        case None => Lexed([], Some(MissingTerminator(d)))
        case Some(j) => Cons(Directive(d, src[i + 3..j]), Lex(src, j + 1))
  }

  /** The source text a segment was scanned from. */
  function Spelling(s: Segment): string
  {
    match s
    case Literal(c) => [c]
    case Statement(body) => "@@$" + body + "\n"
    case Expression(body) => "@@{" + body + "}"
  }

  function Unparse(segs: seq<Segment>): string
  {
    if segs == [] then [] else Spelling(segs[0]) + Unparse(segs[1..])
  }

  /** The script text the converter builds in its scratch buffer for a directive. */
  function ScriptOf(s: Segment): string
    requires !s.Literal?
  {
    match s
    case Statement(body) => body
    case Expression(body) => "majsdown_set_output(" + body + ");"
  }

  /** Text appended to the output, and the engine state afterwards. */
  datatype Rendered<S> = Rendered(text: string, state: S)

  /** What handling one segment appends, and how it changes the engine state. */
  function Effect<S>(s: Segment, st: S, run: (S, string) -> (S, string)): Rendered<S>
  {
    match s
    case Literal(c) => Rendered([c], st)
    case Statement(_) => Rendered([], run(st, ScriptOf(s)).0)
    case Expression(_) => Rendered(run(st, ScriptOf(s)).1, run(st, ScriptOf(s)).0)
  }

  /** Handles the segments in order, starting from engine state `st`. */
  function Render<S>(segs: seq<Segment>, st: S, run: (S, string) -> (S, string)): Rendered<S>
  {
    if segs == [] then Rendered([], st)
    else
      var first := Effect(segs[0], st, run);
      var rest := Render(segs[1..], first.state, run);
      Rendered(first.text + rest.text, rest.state)
  }

  /** The scratch buffer's contents after the segments: the last script built, or `before`. */
  function LastScript(segs: seq<Segment>, before: string): string
  {
    if segs == [] then before
    else if segs[|segs| - 1].Literal? then LastScript(segs[..|segs| - 1], before)
    else ScriptOf(segs[|segs| - 1])
  }

  /** An unterminated directive starts at `k`, and `f` is the failure reported for it. */
  predicate Unterminated(src: string, k: nat, f: Failure)
  {
    IsDirectiveStart(src, k) && f.disambiguator == src[k + 2] &&
    (f.EndOfSource? <==> k + 3 == |src|) &&
    (f.MissingTerminator? ==> forall j :: k + 3 <= j < |src| ==> src[j] != Terminator(src[k + 2]))
  }

  /** Each byte of `s` as a literal segment. */
  function Literals(s: string): seq<Segment>
  {
    if s == [] then [] else [Literal(s[0])] + Literals(s[1..])
  }
}
