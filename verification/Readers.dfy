/** `ReadFull` (pkg/utils/utils.go): fill a buffer from a reader that hands out its bytes in pieces
    of its own choosing. */
module Readers {
  import opened GoSemantics

  datatype Err = Nil | EOF | UnexpectedEOF | Other

  /** What a reader reports once its bytes are used up. */
  datatype Tail = Ends | Breaks

  /** An adversary's choice for one Read: at most how many bytes, whether the last bytes already
      carry the final error, and whether the end is reported as ErrUnexpectedEOF. */
  datatype Chunk = Chunk(size: nat, eager: bool, spurious: bool)

  /** An io.Reader. `plan` fixes its next answers, including calls that return nothing at all; when
      the plan is used up every Read delivers as much as fits. */
  class Reader {
    var rest: seq<byte>
    const tail: Tail
    var plan: seq<Chunk>

    constructor (data: seq<byte>, tail: Tail, plan: seq<Chunk>)
      ensures rest == data && this.tail == tail && this.plan == plan
    {
      rest := data;
      this.tail := tail;
      this.plan := plan;
    }

    method Read(buf: array<byte>, from: nat) returns (n: nat, err: Err)
      requires from < buf.Length
      modifies this, buf
      ensures n <= buf.Length - from && n <= |old(rest)|
      ensures buf[..from + n] == old(buf[..from]) + old(rest)[..n]
      ensures rest == old(rest)[n..]
      ensures err != Nil ==> rest == [] && (err == Other <==> tail == Breaks)
      ensures n == 0 && err == Nil ==> |plan| < |old(plan)|
    {
      var chunk := if plan == [] then Chunk(buf.Length, true, false) else plan[0];
      plan := if plan == [] then [] else plan[1..];
      n := Min(chunk.size, Min(buf.Length - from, |rest|));
      forall i | 0 <= i < n {
        buf[from + i] := rest[i];
      }
      rest := rest[n..];
      if rest == [] && chunk.eager {
        err := if tail == Breaks then Other else if chunk.spurious then UnexpectedEOF else EOF;
      } else {
        err := Nil;
      }
    }
  }

  /** The error ReadFull reports after delivering n of `wanted` bytes. */
  function FullErr(n: nat, wanted: nat, tail: Tail): Err {
    if n >= wanted then Nil
    else if tail == Breaks then Other
    else if n == 0 then EOF
    else UnexpectedEOF
  }

  /** Whatever pieces the reader chooses, the buffer receives the next bytes of the stream, as many
      as fit, and the error depends only on how many there were. */
  method ReadFull(r: Reader, buf: array<byte>) returns (n: nat, err: Err)
    modifies r, buf
    ensures n == Min(buf.Length, |old(r.rest)|)
    ensures buf[..n] == old(r.rest)[..n]
    ensures r.rest == old(r.rest)[n..]
    ensures err == FullErr(n, buf.Length, r.tail)
    ensures err == Nil <==> n == buf.Length
    ensures r.tail == Breaks && n < buf.Length ==> err == Other
    ensures r.tail == Ends && n < buf.Length ==> (err == EOF <==> n == 0) && (err == UnexpectedEOF <==> n > 0)
  {
    n, err := 0, Nil;
    while n < buf.Length && err == Nil
      invariant n <= buf.Length && n <= |old(r.rest)|
      invariant buf[..n] == old(r.rest)[..n]
      invariant r.rest == old(r.rest)[n..]
      invariant err != Nil ==> r.rest == [] && (err == Other <==> r.tail == Breaks)
      invariant err == UnexpectedEOF ==> n > 0
      decreases if err == Nil then 1 else 0, buf.Length - n, |r.plan|
    {
      var nn;
      nn, err := r.Read(buf, n);
      if err == UnexpectedEOF && nn == 0 {
        err := EOF;
      }
      n := n + nn;
    }
    if n >= buf.Length {
      err := Nil;
    } else if n > 0 && err == EOF {
      err := UnexpectedEOF;
    }
  }
}
