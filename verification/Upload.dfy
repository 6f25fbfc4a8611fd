/** Resumable upload (client/api_object.go, PutObject and putObjectResumable). A session asks the
    storage provider how much it holds, skips whole parts of the reader and posts the rest. */
module Upload {
  import opened GoSemantics
  import opened Parts
  import opened Readers

  // ---------- the storage provider ----------

  datatype Post = Post(offset: nat, data: seq<byte>, complete: bool)

  /** The fate of one part, chosen by an adversary: the test hook or the routing query fails before
      anything is sent; the request breaks after `applied` bytes were stored; the part is stored
      but the reply is lost; or all goes well. */
  datatype Fate = HookFails | RouteFails | SendFails(applied: nat) | ReplyLost | Sent

  /** Bytes held for the object, and every post that reached the network, in order. */
  datatype SPState = SPState(stored: seq<byte>, posts: seq<Post>)

  function Overlay(stored: seq<byte>, offset: nat, data: seq<byte>): seq<byte>
    requires offset <= |stored|
  {
    stored[..offset] + data + if offset + |data| < |stored| then stored[offset + |data|..] else []
  }

  /** What the provider holds after a post; a post beyond the stored end is refused. */
  function Store(stored: seq<byte>, p: Post, fate: Fate): seq<byte> {
    if p.offset > |stored| then stored
    else match fate
      case HookFails => stored
      case RouteFails => stored
      case SendFails(n) => Overlay(stored, p.offset, p.data[..Min(n, |p.data|)])
      case ReplyLost => Overlay(stored, p.offset, p.data)
      case Sent => Overlay(stored, p.offset, p.data)
  }

  predicate Accepted(stored: seq<byte>, p: Post, fate: Fate) {
    fate.Sent? && p.offset <= |stored|
  }

  class StorageProvider {
    var stored: seq<byte>
    var posts: seq<Post>

    ghost function State(): SPState
      reads this
    {
      SPState(stored, posts)
    }

    method Receive(p: Post, fate: Fate) returns (ok: bool)
      modifies this
      ensures State() == SPState(Store(old(stored), p, fate), old(posts) + [p])
      ensures ok == Accepted(old(stored), p, fate)
    {
      posts := posts + [p];
      ok := Accepted(stored, p, fate);
      stored := Store(stored, p, fate);
    }
  }

  // ---------- choosing the route ----------

  datatype Route = Rejected | SinglePut | Resumable(partSize: nat)

  /** The guards of PutObject and DelegatePutObject; the size is compared with the part size as int64. */
  function ChooseRoute(objectSize: int, partSize: nat, maxSegmentSize: nat, disableResumable: bool): Route
    requires maxSegmentSize > 0
  {
    var P := if partSize == 0 then MIN_PART_SIZE else partSize;
    if objectSize <= 0 || P % maxSegmentSize != 0 then Rejected
    else if objectSize <= ToInt64(P) || disableResumable then SinglePut
    else Resumable(P)
  }

  // ---------- a session, as a step of the provider ----------

  /** How a session learns its offset. `Created` asks the provider; an object in any other status,
      and a delegated upload, start at 0. */
  datatype Origin = HeadFails | OffsetFails | Created | NotCreated | Delegated

  function StartOffset(origin: Origin, stored: seq<byte>): Option<nat> {
    match origin
    case HeadFails => None
    case OffsetFails => None
    case Created => Some(|stored|)
    case NotCreated => Some(0)
    case Delegated => Some(0)
  }

  /** Where the skip loop leaves the part number and the reader position. */
  function Skipped(stream: seq<byte>, tail: Tail, P: nat, k: nat, pos: nat, first: nat): (nat, nat)
    requires P > 0
    decreases first - k
  {
    if k >= first || (pos >= |stream| && tail == Ends && k > 1) then (k, pos)
    else Skipped(stream, tail, P, k + 1, if pos + P <= |stream| then pos + P else |stream|, first)
  }

  function PartData(stream: seq<byte>, P: nat, pos: nat): seq<byte> {
    if pos >= |stream| then [] else if pos + P <= |stream| then stream[pos..pos + P] else stream[pos..]
  }

  /** The upload loop from part k on: the provider's state and whether the session returns nil. A
      reader that breaks in the middle of a part also ends the session with nil. */
  function Uploaded(sp: SPState, stream: seq<byte>, tail: Tail, P: nat, total: int, k: nat, pos: nat, fate: int -> Fate)
    : (SPState, bool)
    requires P > 0
    decreases total + 1 - k
  {
    if k > total then (sp, true)
    else if fate(k).HookFails? then (sp, false)
    else
      var data := PartData(stream, P, pos);
      if data == [] && tail == Ends && k > 1 then (sp, true)
      else if |data| < P && tail == Breaks then (sp, true)
      else if fate(k).RouteFails? then (sp, false)
      else
        var p := Post(pos, data, k == total);
        var next := SPState(Store(sp.stored, p, fate(k)), sp.posts + [p]);
        if !Accepted(sp.stored, p, fate(k)) then (next, false)
        else if data == [] then (next, true)
        else Uploaded(next, stream, tail, P, total, k + 1, pos + |data|, fate)
  }

  /** A session that divides the offset by the configured part size P and reads parts of `partSize`. */
  function SessionWith(sp: SPState, stream: seq<byte>, tail: Tail, P: nat, partSize: nat, total: int,
                       origin: Origin, fate: int -> Fate)
    : (SPState, bool)
    requires P > 0 && partSize > 0
  {
    match StartOffset(origin, sp.stored)
    case None => (sp, false)
    case Some(offset) =>
      var (k, pos) := Skipped(stream, tail, partSize, 1, 0, offset / P + 1);
      Uploaded(sp, stream, tail, partSize, total, k, pos, fate)
  }

  /** A session for an object whose split into parts is exact. */
  function Session(sp: SPState, stream: seq<byte>, tail: Tail, objectSize: nat, P: nat, origin: Origin, fate: int -> Fate)
    : (SPState, bool)
    requires P > 0
  {
    SessionWith(sp, stream, tail, P, P, CeilDiv(objectSize, P), origin, fate)
  }

  // ---------- the code ----------

  /** One ReadFull into the reused buffer, seen as a slice of the stream. */
  method ReadPart(r: Reader, buf: array<byte>, ghost stream: seq<byte>, ghost pos: nat)
    returns (length: nat, err: Err)
    requires pos <= |stream| && r.rest == stream[pos..] && buf.Length > 0
    modifies r, buf
    ensures length <= buf.Length && buf[..length] == PartData(stream, buf.Length, pos)
    ensures pos + length <= |stream| && r.rest == stream[pos + length..]
    ensures pos + length == if pos + buf.Length <= |stream| then pos + buf.Length else |stream|
    ensures err == FullErr(length, buf.Length, r.tail)
  {
    length, err := ReadFull(r, buf);
  }

  /** Lines 522-533: read past the parts the provider already holds. */
  method SkipParts(r: Reader, buf: array<byte>, startPartNumber: nat)
    returns (partNumber: nat, totalUploadedSize: nat)
    requires buf.Length > 0
    modifies r, buf
    ensures (partNumber, totalUploadedSize) == Skipped(old(r.rest), r.tail, buf.Length, 1, 0, startPartNumber)
    ensures totalUploadedSize <= |old(r.rest)| && r.rest == old(r.rest)[totalUploadedSize..]
    ensures partNumber >= 1
  {
    ghost var stream := r.rest;
    partNumber, totalUploadedSize := 1, 0;
    while partNumber < startPartNumber
      invariant partNumber >= 1
      invariant totalUploadedSize <= |stream| && r.rest == stream[totalUploadedSize..]
      invariant Skipped(stream, r.tail, buf.Length, 1, 0, startPartNumber)
             == Skipped(stream, r.tail, buf.Length, partNumber, totalUploadedSize, startPartNumber)
    {
      var length, rErr := ReadPart(r, buf, stream, totalUploadedSize);
      if rErr == EOF && partNumber > 1 {
        break;
      }
      totalUploadedSize := totalUploadedSize + length;
      partNumber := partNumber + 1;
    }
  }

  /** Lines 535-622: post the remaining parts. Returns whether the session's error is nil. */
  method UploadParts(sp: StorageProvider, r: Reader, buf: array<byte>, startPart: nat, startPos: nat, totalPartsCount: int,
                     fate: int -> Fate, ghost stream: seq<byte>)
    returns (ok: bool)
    requires buf.Length > 0 && startPos <= |stream| && r.rest == stream[startPos..]
    modifies sp, r, buf
    ensures (sp.State(), ok)
         == Uploaded(old(sp.State()), stream, r.tail, buf.Length, totalPartsCount, startPart, startPos, fate)
  {
    var partNumber: nat, totalUploadedSize: nat, complete := startPart, startPos, false;
    while partNumber <= totalPartsCount
      invariant totalUploadedSize <= |stream| && r.rest == stream[totalUploadedSize..]
      invariant complete ==> partNumber > totalPartsCount
      invariant Uploaded(old(sp.State()), stream, r.tail, buf.Length, totalPartsCount, startPart, startPos, fate)
             == Uploaded(sp.State(), stream, r.tail, buf.Length, totalPartsCount, partNumber, totalUploadedSize, fate)
      decreases totalPartsCount + 1 - partNumber
    {
      if partNumber == totalPartsCount {
        complete := true;
      }
      if fate(partNumber).HookFails? {
        return false;
      }
      var length, rErr := ReadPart(r, buf, stream, totalUploadedSize);
      if rErr == EOF && partNumber > 1 {
        return true;
      }
      if rErr != Nil && rErr != UnexpectedEOF && rErr != EOF {
        // The code returns `err`, which is nil here: the hook's result, not the reader's.
        return true;
      }
      if fate(partNumber).RouteFails? {
        return false;
      }
      var accepted := sp.Receive(Post(totalUploadedSize, buf[..length], complete), fate(partNumber));
      if !accepted {
        return false;
      }
      totalUploadedSize := totalUploadedSize + length;
      partNumber := partNumber + 1;
      if rErr == EOF {
        return true;
      }
    }
    return true;
  }

  /** Line 509: the float64 split, exact for sizes below 2^53. */
  method PlanParts(fl: real -> real, objectSize: int, P: nat) returns (split: Split)
    requires RoundsLikeFloat64(fl) && P > 0
    ensures fl(P as real) >= 1.0
    ensures split == SplitPartInfo(fl, objectSize, P) && split.partSize > 0
    ensures 0 < objectSize < TWO53 && P <= TWO53 ==> split.count == CeilDiv(objectSize, P) && split.partSize == P
  {
    ExactSplit(fl, objectSize, P);
    split := SplitPartInfo(fl, objectSize, P);
  }

  /** The session once the split is known. */
  method PutParts(sp: StorageProvider, r: Reader, P: nat, split: Split, origin: Origin, fate: int -> Fate)
    returns (ok: bool)
    requires P > 0 && split.partSize > 0
    modifies sp, r
    ensures (sp.State(), ok)
         == SessionWith(old(sp.State()), old(r.rest), r.tail, P, split.partSize, split.count, origin, fate)
  {
    if origin.HeadFails? || origin.OffsetFails? {
      return false;
    }
    var offset := if origin.Created? then |sp.stored| else 0;
    var startPartNumber := offset / P + 1;
    var buf := new byte[split.partSize];
    ghost var stream := r.rest;
    assert stream[0..] == stream;
    var partNumber, totalUploadedSize := SkipParts(r, buf, startPartNumber);
    ok := UploadParts(sp, r, buf, partNumber, totalUploadedSize, split.count, fate, stream);
  }

  /** putObjectResumable. For object sizes below 2^53 and part sizes up to it the session is the exact
      one; for larger sizes it is the one with the count and part size float64 arithmetic gives. */
  method PutObjectResumable(sp: StorageProvider, r: Reader, objectSize: int, P: nat, origin: Origin,
                            fl: real -> real, fate: int -> Fate)
    returns (ok: bool)
    requires RoundsLikeFloat64(fl) && P > 0
    modifies sp, r
    ensures fl(P as real) >= 1.0
    ensures var s := SplitPartInfo(fl, objectSize, P);
      && s.partSize > 0
      && (sp.State(), ok)
         == SessionWith(old(sp.State()), old(r.rest), r.tail, P, s.partSize, s.count, origin, fate)
    ensures 0 < objectSize < TWO53 && P <= TWO53 ==>
      (sp.State(), ok) == Session(old(sp.State()), old(r.rest), r.tail, objectSize, P, origin, fate)
  {
    var split := PlanParts(fl, objectSize, P);
    ok := PutParts(sp, r, P, split, origin, fate);
  }
}
