/**
 * A growable text buffer standing for `std::string` as the converter uses it:
 * the caller's output buffer, and the thread's scratch buffer returned by
 * `get_tl_buffer()`. Only the three operations the converter performs on a
 * string are modelled: append one character, append a string, clear.
 */
module Buffers {

  class StringBuffer {
    var text: string

    constructor (init: string)
      ensures text == init
    {
      text := init;
    }

    /** `append(1, c)` */
    method AppendChar(c: char)
      modifies this
      ensures text == old(text) + [c]
    {
      text := text + [c];
    }

    /** `append(s)` */
    method Append(s: string)
      modifies this
      ensures text == old(text) + s
    {
      text := text + s;
    }

    /** `clear()` */
    method Clear()
      modifies this
      ensures text == []
    {
      text := [];
    }
  }
}
