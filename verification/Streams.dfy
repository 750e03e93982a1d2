/** Byte streams read with getc and written with putc. */
module Streams {

  const EOF := -1

  predicate IsBytes(s: seq<int>) {
    forall i :: 0 <= i < |s| ==> 0 <= s[i] < 256
  }

  /** A stream read with getc. */
  class InStream {
    const data: seq<int>
    var pos: nat

    ghost predicate Valid()
      reads this
    {
      pos <= |data| && IsBytes(data)
    }

    constructor (data: seq<int>)
      requires IsBytes(data)
      ensures this.data == data && pos == 0 && Valid()
    {
      this.data := data;
      pos := 0;
    }

    method Getc() returns (c: int)
      requires Valid()
      modifies this
      ensures Valid()
      ensures old(pos) < |data| ==> c == data[old(pos)] && pos == old(pos) + 1
      ensures old(pos) == |data| ==> c == EOF && pos == old(pos)
    {
      if pos < |data| {
        c := data[pos];
        pos := pos + 1;
      } else {
        c := EOF;
      }
    }
  }

  /** A stream written with putc. */
  class OutStream {
    var bytes: seq<int>

    constructor ()
      ensures bytes == []
    {
      bytes := [];
    }

    method Putc(c: int)
      modifies this
      ensures bytes == old(bytes) + [c]
    {
      bytes := bytes + [c];
    }
  }
}
