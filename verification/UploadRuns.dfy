/** What sessions and runs of sessions of the resumable upload leave at the storage provider. */
module UploadRuns {
  import opened GoSemantics
  import opened Parts
  import opened Readers
  import opened Upload

  /** The posts of an undisturbed session that starts with part k. */
  function Ideal(payload: seq<byte>, P: nat, total: nat, k: nat): seq<Post>
    requires P > 0 && k >= 1
    decreases total + 1 - k
  {
    if k > total then []
    else [Post((k - 1) * P, PartData(payload, P, (k - 1) * P), k == total)] + Ideal(payload, P, total, k + 1)
  }

  function Joined(posts: seq<Post>): seq<byte> {
    if posts == [] then [] else posts[0].data + Joined(posts[1..])
  }

  lemma PartOffsets(size: nat, P: nat, k: nat)
    requires P > 0 && size > 0 && 1 <= k
    ensures k <= CeilDiv(size, P) <==> (k - 1) * P < size
    ensures k < CeilDiv(size, P) ==> k * P < size
    ensures k == CeilDiv(size, P) ==> size <= k * P
    ensures (k - 1) * P + P == k * P
  {
    var c := CeilDiv(size, P);
    CeilDivBounds(size, P);
    MultipleSize(P, c - k);
    assert c * P == k * P + P * (c - k);
  }

  // ---------- the ideal posts ----------

  /** The parts are non-empty, follow each other from offset (k-1)*P, and only the last one is
      marked complete. */
  lemma {:induction false} IdealShape(payload: seq<byte>, P: nat, k: nat, i: nat)
    requires P > 0 && payload != [] && k >= 1
    requires i < |Ideal(payload, P, CeilDiv(|payload|, P), k)|
    ensures var posts := Ideal(payload, P, CeilDiv(|payload|, P), k);
      && posts[i].offset == (k - 1 + i) * P
      && posts[i].data != []
      && (i + 1 < |posts| ==> posts[i].offset + |posts[i].data| == posts[i + 1].offset)
      && (posts[i].complete <==> i == |posts| - 1)
    decreases i
  {
    var total := CeilDiv(|payload|, P);
    PartOffsets(|payload|, P, k);
    var rest := Ideal(payload, P, total, k + 1);
    assert Ideal(payload, P, total, k)[1..] == rest;
    if i > 0 {
      IdealShape(payload, P, k + 1, i - 1);
    } else if k < total {
      assert rest[0].offset == k * P;
    }
  }

  /** The parts together are the payload from offset (k-1)*P on. */
  lemma {:induction false} IdealJoined(payload: seq<byte>, P: nat, k: nat)
    requires P > 0 && payload != [] && k >= 1 && (k - 1) * P <= |payload|
    ensures Joined(Ideal(payload, P, CeilDiv(|payload|, P), k)) == payload[(k - 1) * P..]
    decreases CeilDiv(|payload|, P) + 1 - k
  {
    var total, pos := CeilDiv(|payload|, P), (k - 1) * P;
    PartOffsets(|payload|, P, k);
    if k <= total {
      var posts := Ideal(payload, P, total, k);
      assert posts[1..] == Ideal(payload, P, total, k + 1);
      if k < total {
        IdealJoined(payload, P, k + 1);
        assert payload[pos..pos + P] + payload[pos + P..] == payload[pos..];
      } else {
        assert Ideal(payload, P, total, k + 1) == [];
        assert payload[pos..] + [] == payload[pos..];
      }
    }
  }

  // ---------- one step of the loop ----------

  /** The provider after a post. */
  function Received(sp: SPState, p: Post, fate: Fate): SPState {
    SPState(Store(sp.stored, p, fate), sp.posts + [p])
  }

  /** An iteration that reaches the network. */
  predicate Posts(stream: seq<byte>, tail: Tail, P: nat, total: int, k: nat, pos: nat, fate: int -> Fate) {
    && k <= total && !fate(k).HookFails? && !fate(k).RouteFails?
    && !(PartData(stream, P, pos) == [] && tail == Ends && k > 1)
    && !(|PartData(stream, P, pos)| < P && tail == Breaks)
  }

  /** One iteration: either the session ends without a post, or one part is posted and the loop goes on
      if it was accepted and not empty. */
  lemma UploadedStep(sp: SPState, stream: seq<byte>, tail: Tail, P: nat, total: int, k: nat, pos: nat, fate: int -> Fate)
    requires P > 0
    ensures var r := Uploaded(sp, stream, tail, P, total, k, pos, fate);
            var data := PartData(stream, P, pos);
            var p := Post(pos, data, k == total);
      if !Posts(stream, tail, P, total, k, pos, fate) then
        r == (sp, k > total || (!fate(k).HookFails? && ((data == [] && tail == Ends && k > 1)
                                                        || (|data| < P && tail == Breaks))))
      else if Accepted(sp.stored, p, fate(k)) && data != [] then
        r == Uploaded(Received(sp, p, fate(k)), stream, tail, P, total, k + 1, pos + |data|, fate)
      else
        r == (Received(sp, p, fate(k)), Accepted(sp.stored, p, fate(k)))
  {
  }

  // ---------- the provider keeps a prefix ----------

  predicate SliceOf(p: Post, payload: seq<byte>) {
    p.offset + |p.data| <= |payload| && p.data == payload[p.offset..p.offset + |p.data|]
  }

  lemma OverlayPrefix(payload: seq<byte>, held: nat, offset: nat, n: nat)
    requires offset <= held <= |payload| && offset + n <= |payload|
    ensures Overlay(payload[..held], offset, payload[offset..offset + n])
         == payload[..if offset + n > held then offset + n else held]
  {
  }

  lemma SlicePrefix(payload: seq<byte>, p: Post, n: nat)
    requires SliceOf(p, payload) && n <= |p.data|
    ensures p.data[..n] == payload[p.offset..p.offset + n] && p.data[..|p.data|] == p.data
  {
  }

  /** A post that is a slice of the payload turns a stored prefix into a prefix that is no shorter; an
      accepted one stores all its bytes. */
  lemma StoreKeepsPrefix(stored: seq<byte>, payload: seq<byte>, p: Post, fate: Fate)
    requires stored <= payload && SliceOf(p, payload)
    ensures var after := Store(stored, p, fate);
      && after <= payload && |stored| <= |after|
      && (Accepted(stored, p, fate) ==> |after| == Max(|stored|, p.offset + |p.data|))
  {
    if p.offset <= |stored| {
      var n := match fate case HookFails => 0 case RouteFails => 0 case SendFails(n) => Min(n, |p.data|) case _ => |p.data|;
      OverlayPrefix(payload, |stored|, p.offset, n);
      SlicePrefix(payload, p, n);
      assert stored == payload[..|stored|];
    }
  }

  lemma PartIsSlice(payload: seq<byte>, stream: seq<byte>, P: nat, pos: nat, complete: bool)
    requires P > 0 && stream <= payload && PartData(stream, P, pos) != []
    ensures SliceOf(Post(pos, PartData(stream, P, pos), complete), payload)
  {
  }

  lemma EmptyPost(stored: seq<byte>, p: Post, fate: Fate)
    requires p.data == []
    ensures Store(stored, p, fate) == stored
  {
    if p.offset <= |stored| {
      assert Overlay(stored, p.offset, []) == stored;
    }
  }

  predicate Extends(before: seq<byte>, after: seq<byte>, payload: seq<byte>) {
    after <= payload && |before| <= |after|
  }

  /** Whatever the reader does and whatever fails, as long as the reader's bytes are bytes of the
      payload from its start, the provider's bytes stay a prefix of the payload and never shrink. */
  lemma {:induction false} UploadedSafe(sp: SPState, payload: seq<byte>, stream: seq<byte>, tail: Tail, P: nat, total: int,
                                        k: nat, pos: nat, fate: int -> Fate, r: (SPState, bool))
    requires P > 0 && stream <= payload && sp.stored <= payload
    requires r == Uploaded(sp, stream, tail, P, total, k, pos, fate)
    ensures Extends(sp.stored, r.0.stored, payload)
    decreases total + 1 - k
  {
    UploadedStep(sp, stream, tail, P, total, k, pos, fate);
    if Posts(stream, tail, P, total, k, pos, fate) {
      var data := PartData(stream, P, pos);
      var p := Post(pos, data, k == total);
      if data == [] {
        EmptyPost(sp.stored, p, fate(k));
      } else {
        PartIsSlice(payload, stream, P, pos, k == total);
        StoreKeepsPrefix(sp.stored, payload, p, fate(k));
        if Accepted(sp.stored, p, fate(k)) {
          UploadedSafe(Received(sp, p, fate(k)), payload, stream, tail, P, total, k + 1, pos + |data|, fate, r);
        }
      }
    }
  }

  /** The same for a session, whatever its part sizes and part count. */
  lemma SessionSafe(sp: SPState, payload: seq<byte>, stream: seq<byte>, tail: Tail, P: nat, partSize: nat, total: int,
                    origin: Origin, fate: int -> Fate)
    requires P > 0 && partSize > 0 && stream <= payload && sp.stored <= payload
    ensures Extends(sp.stored, SessionWith(sp, stream, tail, P, partSize, total, origin, fate).0.stored, payload)
  {
    var offset := StartOffset(origin, sp.stored);
    if offset.Some? {
      var (k, pos) := Skipped(stream, tail, partSize, 1, 0, offset.value / P + 1);
      UploadedSafe(sp, payload, stream, tail, partSize, total, k, pos, fate,
                   Uploaded(sp, stream, tail, partSize, total, k, pos, fate));
    }
  }

  /** One call of a run: its part size, what SplitPartInfo gave, what its reader supplies, how it learns
      the offset, how its parts fare. */
  datatype Call = Call(P: PartSize, partSize: PartSize, total: int,
                       stream: seq<byte>, tail: Tail, origin: Origin, fate: int -> Fate)

  function RunCall(sp: SPState, c: Call): SPState {
    SessionWith(sp, c.stream, c.tail, c.P, c.partSize, c.total, c.origin, c.fate).0
  }

  function Run(sp: SPState, calls: seq<Call>): SPState
    decreases |calls|
  {
    if calls == [] then sp else Run(RunCall(sp, calls[0]), calls[1..])
  }

  /** Over every run of interrupted and restarted sessions the provider holds a prefix of the payload. */
  lemma {:induction false} RunsKeepPrefix(sp: SPState, payload: seq<byte>, calls: seq<Call>)
    requires sp.stored <= payload && forall i :: 0 <= i < |calls| ==> calls[i].stream <= payload
    ensures Extends(sp.stored, Run(sp, calls).stored, payload)
    decreases |calls|
  {
    if calls != [] {
      var c := calls[0];
      SessionSafe(sp, payload, c.stream, c.tail, c.P, c.partSize, c.total, c.origin, c.fate);
      RunsKeepPrefix(RunCall(sp, c), payload, calls[1..]);
    }
  }

  // ---------- one session with a reader that supplies the whole payload ----------

  /** Skipping whole parts of a long enough reader ends exactly at the first part to post. */
  lemma {:induction false} SkipsWholeParts(stream: seq<byte>, tail: Tail, P: nat, k: nat, first: nat)
    requires P > 0 && 1 <= k <= first && (first - 1) * P <= |stream|
    ensures Skipped(stream, tail, P, k, (k - 1) * P, first) == (first, (first - 1) * P)
    decreases first - k
  {
    if k < first {
      MultipleSize(P, first - k);
      assert (first - 1) * P == (k - 1) * P + P * (first - k);
      assert (k + 1 - 1) * P == (k - 1) * P + P;
      SkipsWholeParts(stream, tail, P, k + 1, first);
    }
  }

  /** The posts made are the first of the ideal ones, all of them when the session returns nil; then
      the provider holds the whole payload if there was anything to post. */
  predicate Delivers(before: SPState, result: (SPState, bool), payload: seq<byte>, ideal: seq<Post>) {
    var (after, ok) := result;
    && before.posts <= after.posts
    && after.posts[|before.posts|..] <= ideal
    && (ok ==> after.posts == before.posts + ideal)
    && (ok && ideal != [] ==> after.stored == payload)
  }

  lemma PostsExtend(before: seq<Post>, p: Post, after: seq<Post>, rest: seq<Post>)
    requires before + [p] <= after && after[|before| + 1..] <= rest
    ensures before <= after && after[|before|..] <= [p] + rest
    ensures after == before + [p] + rest ==> after == before + ([p] + rest)
  {
    assert after[|before|..] == [p] + after[|before| + 1..];
  }

  /** The posts of a loop are the ideal ones up to the first failure, all of them when it returns nil,
      and then the provider holds everything. */
  lemma {:induction false} UploadedPosts(sp: SPState, payload: seq<byte>, P: nat, k: nat, pos: nat, fate: int -> Fate,
                                         r: (SPState, bool), ideal: seq<Post>)
    requires P > 0 && payload != [] && k >= 1 && pos == (k - 1) * P
    requires sp.stored <= payload && pos <= |sp.stored|
    requires r == Uploaded(sp, payload, Ends, P, CeilDiv(|payload|, P), k, pos, fate)
    requires ideal == Ideal(payload, P, CeilDiv(|payload|, P), k)
    ensures Delivers(sp, r, payload, ideal)
    decreases CeilDiv(|payload|, P) + 1 - k
  {
    var total := CeilDiv(|payload|, P);
    PartOffsets(|payload|, P, k);
    UploadedStep(sp, payload, Ends, P, total, k, pos, fate);
    if Posts(payload, Ends, P, total, k, pos, fate) {
      var p := Post(pos, PartData(payload, P, pos), k == total);
      var next := Received(sp, p, fate(k));
      PartIsSlice(payload, payload, P, pos, k == total);
      StoreKeepsPrefix(sp.stored, payload, p, fate(k));
      var rest := Ideal(payload, P, total, k + 1);
      assert ideal == [p] + rest;
      if Accepted(sp.stored, p, fate(k)) {
        if k < total {
          UploadedPosts(next, payload, P, k + 1, pos + P, fate, r, rest);
          PostsExtend(sp.posts, p, r.0.posts, rest);
        } else {
          UploadedStep(next, payload, Ends, P, total, k + 1, pos + |p.data|, fate);
          assert rest == [];
        }
      } else {
        assert ideal[..1] == [p];
      }
    }
  }

  /** The first part a session posts when the provider reports `offset` bytes. */
  function FirstPart(offset: nat, P: nat): nat
    requires P > 0
  {
    offset / P + 1
  }

  lemma SessionIsUpload(sp: SPState, stream: seq<byte>, tail: Tail, size: nat, P: nat, origin: Origin, fate: int -> Fate)
    returns (first: nat, pos: nat)
    requires P > 0 && StartOffset(origin, sp.stored).Some?
    requires (FirstPart(StartOffset(origin, sp.stored).value, P) - 1) * P <= |stream|
    ensures first == FirstPart(StartOffset(origin, sp.stored).value, P)
    ensures first >= 1 && pos == (first - 1) * P && pos <= StartOffset(origin, sp.stored).value <= |sp.stored|
    ensures Session(sp, stream, tail, size, P, origin, fate)
         == Uploaded(sp, stream, tail, P, CeilDiv(size, P), first, pos, fate)
  {
    var offset := StartOffset(origin, sp.stored).value;
    QuotientBounds(offset, P);
    first, pos := FirstPart(offset, P), offset / P * P;
    SkipsWholeParts(stream, tail, P, 1, first);
  }

  lemma FirstPartBelow(offset: nat, P: nat)
    requires P > 0
    ensures (FirstPart(offset, P) - 1) * P <= offset < FirstPart(offset, P) * P
  {
    QuotientBounds(offset, P);
  }

  /** The final part is still to be posted unless the offset is the end of an object of whole parts. */
  lemma FinalPartOpen(offset: nat, size: nat, P: nat)
    requires P > 0 && 0 < size && offset <= size
    ensures FirstPart(offset, P) <= CeilDiv(size, P) <==> !(offset == size && size % P == 0)
  {
    var first := FirstPart(offset, P);
    FirstPartBelow(offset, P);
    QuotientBounds(offset, P);
    PartOffsets(size, P, first);
    if offset == size && size % P == 0 {
      assert (first - 1) * P == size;
    }
  }

  lemma SomethingToPost(payload: seq<byte>, P: nat, offset: nat)
    requires P > 0 && payload != [] && offset <= |payload|
    ensures Ideal(payload, P, CeilDiv(|payload|, P), FirstPart(offset, P)) == []
       <==> offset == |payload| && |payload| % P == 0
  {
    FinalPartOpen(offset, |payload|, P);
  }

  /** A session whose reader supplies exactly the payload posts, in order, the parts from
      floor(offset/P)*P on, and nothing else. If it returns nil it posted them all; if moreover the
      offset was short of the object, the provider then holds the whole payload. */
  lemma SessionPosts(sp: SPState, payload: seq<byte>, P: nat, origin: Origin, fate: int -> Fate,
                     r: (SPState, bool), ideal: seq<Post>)
    requires P > 0 && payload != [] && sp.stored <= payload && StartOffset(origin, sp.stored).Some?
    requires r == Session(sp, payload, Ends, |payload|, P, origin, fate)
    requires ideal == Ideal(payload, P, CeilDiv(|payload|, P), FirstPart(StartOffset(origin, sp.stored).value, P))
    ensures Delivers(sp, r, payload, ideal)
    ensures ideal == [] <==> StartOffset(origin, sp.stored).value == |payload| && |payload| % P == 0
  {
    SomethingToPost(payload, P, StartOffset(origin, sp.stored).value);
    FirstPartBelow(StartOffset(origin, sp.stored).value, P);
    var k, pos := SessionIsUpload(sp, payload, Ends, |payload|, P, origin, fate);
    UploadedPosts(sp, payload, P, k, pos, fate, r, ideal);
  }

  // ---------- the guards ----------

  /** Which route is taken, for every int64 object size and uint64 part size, 32 MiB standing in for 0: an
      empty object or parts that are not whole segments are refused; an object takes the resumable route
      exactly when that is not disabled and it has at least two parts, or when the part size is
      negative as an int64. */
  lemma ResumableHasSeveralParts(objectSize: int, partSize: nat, maxSegmentSize: nat, disableResumable: bool)
    requires maxSegmentSize > 0 && objectSize <= MAX_INT64 && partSize < TWO64
    ensures var P := if partSize == 0 then 33_554_432 else partSize;
            var route := ChooseRoute(objectSize, partSize, maxSegmentSize, disableResumable);
      && (route.Rejected? <==> objectSize <= 0 || P % maxSegmentSize != 0)
      && (route.Resumable? ==> route.partSize == P)
      && (route.Resumable? <==> !route.Rejected? && !disableResumable
                                && (CeilDiv(objectSize, P) >= 2 || P > MAX_INT64))
  {
    var P := if partSize == 0 then MIN_PART_SIZE else partSize;
    if objectSize > 0 {
      CeilDivBounds(objectSize, P);
      MultipleSize(P, CeilDiv(objectSize, P));
      MultipleSize(P, CeilDiv(objectSize, P) - 1);
    }
  }
}
