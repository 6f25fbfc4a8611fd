/** Chunked file comparison (types/doc.go, CompareFiles). */
module CompareFiles {
  import opened GoSemantics

  const CHUNK: nat := 102400

  /** An open file; a read fills the buffer unless the file ends first, and leaves the rest of the
      buffer as it was. */
  class InputFile {
    const content: seq<byte>
    var pos: nat

    ghost predicate Valid()
      reads this
    {
      pos <= |content|
    }

    constructor (content: seq<byte>)
      ensures Valid() && this.content == content && pos == 0
    {
      this.content := content;
      pos := 0;
    }

    method Read(buf: array<byte>) returns (n: nat)
      requires Valid()
      modifies this, buf
      ensures Valid() && n == Min(buf.Length, |content| - old(pos)) && pos == old(pos) + n
      ensures buf[..] == content[old(pos)..pos] + old(buf[n..])
    {
      n := Min(buf.Length, |content| - pos);
      forall i | 0 <= i < n {
        buf[i] := content[pos + i];
      }
      pos := pos + n;
    }
  }

  /** Both buffers hold the next bytes of their file and the same stale bytes behind them. */
  lemma SameChunk(left: seq<byte>, right: seq<byte>, bufL: seq<byte>, bufR: seq<byte>, stale: seq<byte>, start: nat, n: nat)
    requires start + n <= |left| == |right| && left[..start] == right[..start]
    requires bufL == left[start..start + n] + stale && bufR == right[start..start + n] + stale
    ensures bufL == bufR <==> left[..start + n] == right[..start + n]
  {
    assert left[..start + n] == left[..start] + left[start..start + n];
    assert right[..start + n] == right[..start] + right[start..start + n];
    assert bufL[..n] == left[start..start + n] && bufR[..n] == right[start..start + n];
    assert left[..start + n][start..] == left[start..start + n] && right[..start + n][start..] == right[start..start + n];
  }

  /** The loop of CompareFiles for an arbitrary buffer size. The last chunk may leave stale bytes at
      the end of both buffers; they are equal because the buffers were equal before. */
  method CompareInChunks(left: seq<byte>, right: seq<byte>, chunk: nat) returns (same: bool)
    requires chunk > 0
    ensures same <==> left == right
  {
    if |left| != |right| {
      return false;
    }
    var finL := new InputFile(left);
    var finR := new InputFile(right);
    var size := if |left| > chunk then chunk else |left|;
    var bufL := new byte[size](_ => 0);
    var bufR := new byte[size](_ => 0);
    while true
      invariant fresh(finL) && fresh(finR) && fresh(bufL) && fresh(bufR) && bufL != bufR
      invariant finL.Valid() && finR.Valid() && finL.content == left && finR.content == right
      invariant finL.pos == finR.pos && left[..finL.pos] == right[..finL.pos]
      invariant bufL[..] == bufR[..]
      decreases |left| - finL.pos
    {
      ghost var start := finL.pos;
      ghost var stale := bufL[..];
      var n := finL.Read(bufL);
      if n == 0 {
        break;
      }
      n := finR.Read(bufR);
      if n == 0 {
        break;
      }
      SameChunk(left, right, bufL[..], bufR[..], stale[n..], start, n);
      if bufL[..] != bufR[..] {
        return false;
      }
    }
    assert left[..|left|] == left && right[..|left|] == right;
    return true;
  }

  method SameFiles(left: seq<byte>, right: seq<byte>) returns (same: bool)
    ensures same <==> left == right
  {
    same := CompareInChunks(left, right, CHUNK);
  }
}
