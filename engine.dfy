/**
 * The JavaScript interpreter as an abstract collaborator. Its internal state
 * is an opaque value of type S, and executing a script is an arbitrary,
 * deterministic function `run(state, script) == (state', appended)`, where
 * `appended` is the text the script passed to `majsdown_set_output`.
 */
module Engine {
  import opened Buffers

  class Interpreter<S> {
    /** The engine's state (global bindings and so on), opaque to the converter. */
    var state: S
    /** What executing one script does to the state, and the text it outputs. */
    const run: (S, string) -> (S, string)

    /** A fresh interpreter; `init` is the state right after creation. */
    constructor (init: S, run: (S, string) -> (S, string))
      ensures state == init && this.run == run
    {
      state := init;
      this.run := run;
    }

    /** Executes `script`, appending its captured output to `output`. */
    method Interpret(output: StringBuffer, script: string)
      modifies this, output
      ensures state == run(old(state), script).0
      ensures output.text == old(output.text) + run(old(state), script).1
    {
      var (next, appended) := run(state, script);
      state := next;
      output.Append(appended);
    }

    /** Executes `script` for its effect on the state; any output is dropped. */
    method InterpretDiscard(script: string)
      modifies this
      ensures state == run(old(state), script).0
    {
      state := run(state, script).0;
    }
  }
}
