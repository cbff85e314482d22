/**
 * The scanner's cursor: the immutable source, the current index `curr_idx`,
 * and the small lookahead and search helpers that the conversion loop uses
 * (the lambdas of `converter::impl::convert`, which capture both by reference).
 */
module Cursors {
  import opened Wrappers
  import opened Buffers

  /** The least index `i >= start` with `src[i] == c`, if there is one. */
  function Find(src: string, c: char, start: nat): (r: Option<nat>)
    decreases |src| - start
    ensures r.Some? ==> start <= r.value < |src| && src[r.value] == c
    ensures r.Some? ==> forall k :: start <= k < r.value ==> src[k] != c
    ensures r.None? <==> forall k :: start <= k < |src| ==> src[k] != c
  {
    if start >= |src| then None
    else if src[start] == c then Some(start)
    else Find(src, c, start + 1)
  }

  class Cursor {
    const source: string
    var curr: nat

    constructor (source: string)
      ensures this.source == source && curr == 0
    {
      this.source := source;
      curr := 0;
    }

    /** Look at the byte `n` positions ahead of the cursor, if it exists. */
    function Peek(n: nat): (r: Option<char>)
      reads this
      ensures r.None? <==> curr + n >= |source|
      ensures r.Some? ==> r.value == source[curr + n]
    {
      if curr + n >= |source| then None else Some(source[curr + n])
    }

    /** The whole source has been consumed. */
    predicate IsDone()
      reads this
      ensures IsDone() <==> Peek(0).None?
    {
      curr >= |source|
    }

    /** The byte under the cursor. */
    function CurrChar(): (r: char)
      reads this
      requires !IsDone()
      ensures Peek(0) == Some(r)
    {
      source[curr]
    }

    method StepFwd()
      modifies this
      ensures curr == old(curr) + 1
    {
      curr := curr + 1;
    }

    /** Linear search for the first `c` at or after `start`, as `Find` characterises it. */
    method FindNext(c: char, start: nat) returns (r: Option<nat>)
      ensures r == Find(source, c, start)
    {
      var i := start;
      while i < |source|
        invariant start <= i && (i == start || i <= |source|)
        invariant forall k :: start <= k < i ==> source[k] != c
        invariant Find(source, c, i) == Find(source, c, start)
        decreases |source| - i
      {
        if source[i] == c {
          return Some(i);
        }
        i := i + 1;
      }
      return None;
    }

    /** Appends `source[start..end]` to `buffer`, one byte at a time. */
    method CopyRangeTo(buffer: StringBuffer, start: nat, end: nat)
      requires start < end ==> end <= |source|
      modifies buffer
      ensures buffer.text == old(buffer.text) + (if start < end then source[start..end] else [])
    {
      var i := start;
      while i < end
        invariant if start < end then start <= i <= end else i == start
        invariant buffer.text == old(buffer.text) + (if start < i then source[start..i] else [])
        decreases end - i
      {
        buffer.AppendChar(source[i]);
        i := i + 1;
      }
    }
  }
}
