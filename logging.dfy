/**
 * The report writer every script installs as its standard output: each
 * message goes to the console and to the report file. The console and the
 * file are modelled by the text written to them.
 */
module Logging {

  class Logger {
    /** Text on the console, including what was there before the logger existed. */
    var terminal: string
    /** Contents of the report file. */
    var log: string
    /** Name of the report file. */
    const filename: string
    /** How much console text predates the logger. */
    ghost var start: nat

    /** The report file holds exactly what reached the console since the logger was created. */
    ghost predicate Valid()
      reads this
    {
      start <= |terminal| && terminal[start..] == log
    }

    /** Opening the report file in write mode truncates it; the console is taken as it is. */
    constructor(console: string, filename: string)
      ensures Valid()
      ensures terminal == console && log == "" && this.filename == filename
    {
      terminal := console;
      log := "";
      this.filename := filename;
      start := |console|;
    }

    /** `write`: the message is appended to the console and to the file, unchanged. */
    method Write(message: string)
      requires Valid()
      modifies this
      ensures Valid()
      ensures terminal == old(terminal) + message
      ensures log == old(log) + message
      ensures start == old(start)
    {
      terminal := terminal + message;
      log := log + message;
      assert terminal[start..] == old(terminal)[start..] + message;
    }

    /** `flush` does nothing. */
    method Flush()
      ensures unchanged(this)
    {
    }

    /** Python's `print(message)` on this stream: two writes, the text and then the newline. */
    method Print(message: string)
      requires Valid()
      modifies this
      ensures Valid()
      ensures terminal == old(terminal) + message + "\n"
      ensures log == old(log) + message + "\n"
      ensures start == old(start)
    {
      Write(message);
      Write("\n");
    }
  }
}
