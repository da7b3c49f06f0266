// The error values of the client and the remote console it talks through.
//
// The console stands for `*rcon.RemoteConsole` of the external
// `github.com/james4k/rcon` library, whose code is not part of this model:
// what the channel does on the next exchange is a scripted value, and the
// object records every command written and every read attempted, so that
// "one write, then at most one read" can be stated about each operation.
module Rcon {

  /** Go's `error` as the client sees it: `nil`, the package's two sentinel
      errors, or an error raised by the transport, passed on unchanged. */
  datatype Err =
    | Nil
    | EmptyResponse           // "No Server Response"
    | FailResponse            // "Server failed at request"
    | Transport(cause: string)

  /** What the channel does with the next exchange. */
  datatype TransportResult =
    | WriteFailed(cause: string)
    | ReadFailed(cause: string)
    | Replied(text: string)

  class RemoteConsole {
    var script: TransportResult
    var written: seq<string>
    var readCount: nat

    constructor (script: TransportResult)
      ensures this.script == script && written == [] && readCount == 0
    {
      this.script := script;
      written := [];
      readCount := 0;
    }

    /** `rc.Write(cmd)`: the command is sent (and logged here); the error is
        the scripted write failure, if any. */
    method Write(cmd: string) returns (err: Err)
      modifies this
      ensures script == old(script) && readCount == old(readCount)
      ensures written == old(written) + [cmd]
      ensures err == if script.WriteFailed? then Transport(script.cause) else Nil
    {
      written := written + [cmd];
      err := if script.WriteFailed? then Transport(script.cause) else Nil;
    }

    /** `rc.Read()`: the scripted reply, or the scripted read failure. */
    method Read() returns (resp: string, err: Err)
      modifies this
      ensures script == old(script) && written == old(written)
      ensures readCount == old(readCount) + 1
      ensures script.Replied? ==> resp == script.text && err == Nil
      ensures !script.Replied? ==> resp == "" && err == Transport(script.cause)
    {
      readCount := readCount + 1;
      if script.Replied? {
        resp, err := script.text, Nil;
      } else {
        resp, err := "", Transport(script.cause);
      }
    }

    /** Between the two states exactly one command, `cmd`, was written, and a
        read followed unless the write failed. */
    twostate predicate OneExchange(cmd: string)
      reads this
    {
      script == old(script) &&
      written == old(written) + [cmd] &&
      readCount == old(readCount) + (if old(script).WriteFailed? then 0 else 1)
    }
  }
}
