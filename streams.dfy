/** A byte sink in the role of Go's io.Writer: an in-memory buffer or one
    direction of a socket connection. Writing either takes all of the bytes or
    fails and takes none. */
module Streams {
  import opened GoBits
  import opened Errors

  class Stream {
    /** every byte written so far, in order */
    var data: seq<byte>
    var closed: bool
    /** the other end has gone away: every write fails */
    const broken: bool

    constructor (broken: bool)
      ensures data == [] && !closed && this.broken == broken
    {
      data := [];
      closed := false;
      this.broken := broken;
    }

    predicate Writable()
      reads this
    {
      !closed && !broken
    }

    method Write(b: seq<byte>) returns (n: nat, err: Outcome)
      modifies this
      ensures closed == old(closed)
      ensures old(Writable()) ==> n == |b| && err == Pass && data == old(data) + b
      ensures !old(Writable()) ==> n == 0 && err == Fail(Transport) && data == old(data)
    {
      if closed || broken {
        n, err := 0, Fail(Transport);
      } else {
        data := data + b;
        n, err := |b|, Pass;
      }
    }

    method Close()
      modifies this
      ensures closed && data == old(data)
    {
      closed := true;
    }
  }
}
