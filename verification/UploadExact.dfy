/** Where a session of the resumable upload starts, and exactly what one leaves that is interrupted. */
module UploadExact {
  import opened GoSemantics
  import opened Parts
  import opened Readers
  import opened Upload
  import opened UploadRuns
  import opened UploadNil

  // ---------- where a session starts ----------

  /** The posts of a loop begin at the reader's position. */
  lemma {:induction false} LoopStarts(sp: SPState, stream: seq<byte>, tail: Tail, P: nat, total: int, k: nat, pos: nat,
                                      fate: int -> Fate, r: (SPState, bool))
    requires P > 0 && r == Uploaded(sp, stream, tail, P, total, k, pos, fate)
    ensures sp.posts <= r.0.posts
    ensures |r.0.posts| > |sp.posts| ==> r.0.posts[|sp.posts|].offset == pos
    decreases total + 1 - k
  {
    UploadedStep(sp, stream, tail, P, total, k, pos, fate);
    if Posts(stream, tail, P, total, k, pos, fate) {
      var data := PartData(stream, P, pos);
      var p := Post(pos, data, k == total);
      if Accepted(sp.stored, p, fate(k)) && data != [] {
        LoopStarts(Received(sp, p, fate(k)), stream, tail, P, total, k + 1, pos + |data|, fate, r);
        AfterPost(sp.posts, p, r.0.posts);
      }
    }
  }

  /** A reader that ends before the first part to post: nothing is posted. */
  lemma NothingLeft(sp: SPState, stream: seq<byte>, tail: Tail, P: nat, total: int, first: nat, fate: int -> Fate,
                    r: (SPState, bool))
    requires P > 0 && first >= 1 && |stream| < (first - 1) * P
    requires var (k, pos) := Skipped(stream, tail, P, 1, 0, first);
      r == Uploaded(sp, stream, tail, P, total, k, pos, fate)
    ensures r.0 == sp
  {
    SkipsShort(stream, tail, P, 1, 0, first);
    var (k, pos) := Skipped(stream, tail, P, 1, 0, first);
    UploadedStep(sp, stream, tail, P, total, k, pos, fate);
  }

  /** For every reader and every fate of the parts: an object that is still being created goes on at the
      last part boundary the provider has reached; any other object, and a delegated upload, starts
      from the beginning; and a session that cannot learn its offset fails without posting. */
  lemma SessionStarts(sp: SPState, stream: seq<byte>, tail: Tail, size: nat, P: nat, origin: Origin, fate: int -> Fate,
                      r: (SPState, bool))
    requires P > 0 && r == Session(sp, stream, tail, size, P, origin, fate)
    ensures sp.posts <= r.0.posts
    ensures origin.Created? && |r.0.posts| > |sp.posts| ==> r.0.posts[|sp.posts|].offset == |sp.stored| / P * P
    ensures (origin.NotCreated? || origin.Delegated?) && |r.0.posts| > |sp.posts| ==> r.0.posts[|sp.posts|].offset == 0
    ensures origin.HeadFails? || origin.OffsetFails? ==> r == (sp, false)
  {
    var offset := StartOffset(origin, sp.stored);
    if offset.Some? {
      QuotientIs(0, P, 0);
      if |stream| < (FirstPart(offset.value, P) - 1) * P {
        NothingLeft(sp, stream, tail, P, CeilDiv(size, P), FirstPart(offset.value, P), fate, r);
      } else {
        var k, pos := SessionIsUpload(sp, stream, tail, size, P, origin, fate);
        LoopStarts(sp, stream, tail, P, CeilDiv(size, P), k, pos, fate, r);
      }
    }
  }

  // ---------- exactly what an interrupted session leaves ----------

  /** How many bytes of a part of `len` bytes the provider keeps. */
  function Arrives(fate: Fate, len: nat): nat {
    match fate
    case HookFails => 0
    case RouteFails => 0
    case SendFails(applied) => Min(applied, len)
    case ReplyLost => len
    case Sent => len
  }

  lemma StoreExact(stored: seq<byte>, payload: seq<byte>, p: Post, fate: Fate)
    requires stored <= payload && SliceOf(p, payload) && p.offset <= |stored|
    ensures Store(stored, p, fate) == payload[..Max(|stored|, p.offset + Arrives(fate, |p.data|))]
  {
    var n := Arrives(fate, |p.data|);
    OverlayPrefix(payload, |stored|, p.offset, n);
    SlicePrefix(payload, p, n);
    assert stored == payload[..|stored|];
  }

  /** The end of what is stored after j accepted parts of `ideal` and what arrived of the next one. */
  function StoredEnd(ideal: seq<Post>, j: nat, fate: Fate): nat
    requires j <= |ideal|
  {
    if j < |ideal| then ideal[j].offset + Arrives(fate, |ideal[j].data|)
    else if ideal == [] then 0
    else ideal[j - 1].offset + |ideal[j - 1].data|
  }

  /** The first j posts, and the next one if it reached the network. */
  function Reached(ideal: seq<Post>, j: nat, fate: Fate): seq<Post>
    requires j <= |ideal|
  {
    if j < |ideal| && (fate.SendFails? || fate.ReplyLost?) then ideal[..j + 1] else ideal[..j]
  }

  /** What is left when the first j parts are accepted and the next one, if there is one, meets `fate`. */
  predicate StopsAfter(before: SPState, r: (SPState, bool), payload: seq<byte>, ideal: seq<Post>, j: nat, fate: Fate)
    requires j <= |ideal|
  {
    && (r.1 <==> j == |ideal|)
    && r.0.posts == before.posts + Reached(ideal, j, fate)
    && |before.stored| <= |payload| && StoredEnd(ideal, j, fate) <= |payload|
    && r.0.stored == payload[..Max(|before.stored|, StoredEnd(ideal, j, fate))]
  }

  lemma StopsAtOnce(sp: SPState, payload: seq<byte>, p: Post, rest: seq<Post>, ideal: seq<Post>, fate: Fate,
                    r: (SPState, bool))
    requires ideal == [p] + rest && sp.stored <= payload && SliceOf(p, payload) && p.offset <= |sp.stored| && !fate.Sent?
    requires r == (if fate.HookFails? || fate.RouteFails? then (sp, false) else (Received(sp, p, fate), false))
    ensures StopsAfter(sp, r, payload, ideal, 0, fate)
  {
    StoreExact(sp.stored, payload, p, fate);
    assert sp.stored == payload[..|sp.stored|];
    assert ideal[..1] == [p] && ideal[..0] == [];
    assert sp.posts + [] == sp.posts;
  }

  lemma ReachedNext(before: seq<Post>, p: Post, rest: seq<Post>, ideal: seq<Post>, j: nat, fate: Fate)
    requires ideal == [p] + rest && 1 <= j <= |ideal|
    ensures before + [p] + Reached(rest, j - 1, fate) == before + Reached(ideal, j, fate)
  {
    assert Reached(ideal, j, fate) == [p] + Reached(rest, j - 1, fate);
  }

  lemma EndNext(p: Post, rest: seq<Post>, ideal: seq<Post>, j: nat, fate: Fate)
    requires ideal == [p] + rest && 1 <= j <= |ideal|
    requires forall i :: 0 <= i < |rest| ==> p.offset + |p.data| <= rest[i].offset
    ensures StoredEnd(ideal, j, fate) == Max(p.offset + |p.data|, StoredEnd(rest, j - 1, fate))
  {
    assert j > 1 ==> ideal[j - 1] == rest[j - 2];
    assert j < |ideal| ==> ideal[j] == rest[j - 1];
  }

  /** One accepted part in front of what the rest of the loop leaves. */
  lemma StopsLater(sp: SPState, payload: seq<byte>, p: Post, rest: seq<Post>, ideal: seq<Post>, j: nat, fate: Fate,
                   r: (SPState, bool))
    requires ideal == [p] + rest && sp.stored <= payload && SliceOf(p, payload) && p.offset <= |sp.stored|
    requires 1 <= j <= |ideal| && StopsAfter(Received(sp, p, Sent), r, payload, rest, j - 1, fate)
    requires forall i :: 0 <= i < |rest| ==> p.offset + |p.data| <= rest[i].offset
    ensures StopsAfter(sp, r, payload, ideal, j, fate)
  {
    StoreExact(sp.stored, payload, p, Sent);
    ReachedNext(sp.posts, p, rest, ideal, j, fate);
    EndNext(p, rest, ideal, j, fate);
  }

  /** No part from k on begins before offset (k-1)*P. */
  lemma {:induction false} OffsetsFrom(payload: seq<byte>, P: nat, total: nat, k: nat, ideal: seq<Post>)
    requires P > 0 && k >= 1 && ideal == Ideal(payload, P, total, k)
    ensures forall i :: 0 <= i < |ideal| ==> (k - 1) * P <= ideal[i].offset
    decreases total + 1 - k
  {
    if k <= total {
      var rest := Ideal(payload, P, total, k + 1);
      OffsetsFrom(payload, P, total, k + 1, rest);
      assert (k + 1 - 1) * P == (k - 1) * P + P;
      assert forall i :: 1 <= i < |ideal| ==> ideal[i] == rest[i - 1];
    }
  }

  lemma NothingMore(sp: SPState, payload: seq<byte>, r: (SPState, bool), fate: Fate)
    requires sp.stored <= payload && r == (sp, true)
    ensures StopsAfter(sp, r, payload, [], 0, fate)
  {
    assert sp.stored == payload[..|sp.stored|];
    assert sp.posts + [] == sp.posts;
  }

  /** The first iteration: part k is refused, and the session with it, or accepted, and the rest of the
      loop follows. */
  lemma FirstIteration(sp: SPState, payload: seq<byte>, P: nat, k: nat, pos: nat, fate: int -> Fate, r: (SPState, bool),
                       ideal: seq<Post>)
    returns (p: Post, rest: seq<Post>)
    requires P > 0 && payload != [] && 1 <= k <= CeilDiv(|payload|, P) && pos == (k - 1) * P
    requires sp.stored <= payload && pos <= |sp.stored|
    requires r == Uploaded(sp, payload, Ends, P, CeilDiv(|payload|, P), k, pos, fate)
    requires ideal == Ideal(payload, P, CeilDiv(|payload|, P), k)
    ensures ideal == [p] + rest && rest == Ideal(payload, P, CeilDiv(|payload|, P), k + 1)
    ensures p.offset == pos && SliceOf(p, payload)
    ensures Received(sp, p, Sent).stored <= payload
    ensures k < CeilDiv(|payload|, P) ==>
      pos + |p.data| == (k + 1 - 1) * P && pos + |p.data| <= |Received(sp, p, Sent).stored|
    ensures forall i :: 0 <= i < |rest| ==> pos + |p.data| <= rest[i].offset
    ensures !fate(k).Sent? ==>
      r == if fate(k).HookFails? || fate(k).RouteFails? then (sp, false) else (Received(sp, p, fate(k)), false)
    ensures fate(k).Sent? ==>
      r == Uploaded(Received(sp, p, Sent), payload, Ends, P, CeilDiv(|payload|, P), k + 1, pos + |p.data|, fate)
  {
    var total := CeilDiv(|payload|, P);
    PartOffsets(|payload|, P, k);
    p, rest := Post(pos, PartData(payload, P, pos), k == total), Ideal(payload, P, total, k + 1);
    PartIsSlice(payload, payload, P, pos, k == total);
    UploadedStep(sp, payload, Ends, P, total, k, pos, fate);
    StoreKeepsPrefix(sp.stored, payload, p, Sent);
    OffsetsFrom(payload, P, total, k + 1, rest);
  }

  lemma LoopEnds(sp: SPState, payload: seq<byte>, P: nat, k: nat, pos: nat, fate: int -> Fate, r: (SPState, bool),
                 ideal: seq<Post>, f: Fate)
    requires P > 0 && k > CeilDiv(|payload|, P) && sp.stored <= payload
    requires r == Uploaded(sp, payload, Ends, P, CeilDiv(|payload|, P), k, pos, fate)
    requires ideal == Ideal(payload, P, CeilDiv(|payload|, P), k)
    ensures ideal == [] && StopsAfter(sp, r, payload, ideal, 0, f)
  {
    UploadedStep(sp, payload, Ends, P, CeilDiv(|payload|, P), k, pos, fate);
    NothingMore(sp, payload, r, f);
  }

  /** The loop from part k on, when the parts before k+j are accepted and part k+j is not. */
  lemma {:induction false} LoopStopsAfter(sp: SPState, payload: seq<byte>, P: nat, total: nat, k: nat, pos: nat,
                                          fate: int -> Fate, r: (SPState, bool), ideal: seq<Post>, j: nat, f: Fate)
    requires P > 0 && payload != [] && total == CeilDiv(|payload|, P) && k >= 1
    requires sp.stored <= payload && (k <= total ==> pos == (k - 1) * P && pos <= |sp.stored|)
    requires r == Uploaded(sp, payload, Ends, P, total, k, pos, fate)
    requires ideal == Ideal(payload, P, total, k) && j <= |ideal| && f == fate(k + j)
    requires forall i :: k <= i < k + j ==> fate(i).Sent?
    requires j < |ideal| ==> !f.Sent?
    ensures StopsAfter(sp, r, payload, ideal, j, f)
    decreases total + 1 - k
  {
    if k > total {
      LoopEnds(sp, payload, P, k, pos, fate, r, ideal, f);
    } else {
      var p, rest := FirstIteration(sp, payload, P, k, pos, fate, r, ideal);
      if j == 0 {
        StopsAtOnce(sp, payload, p, rest, ideal, f, r);
      } else {
        assert fate(k).Sent?;
        LoopStopsAfter(Received(sp, p, Sent), payload, P, total, k + 1, pos + |p.data|, fate, r, rest, j - 1, f);
        StopsLater(sp, payload, p, rest, ideal, j, f, r);
      }
    }
  }

  /** A session whose reader supplies exactly the payload and whose parts are accepted up to the j-th of
      those it has to post: which posts it makes, what the provider then holds, byte for byte, and that
      it returns nil exactly when all were accepted. */
  lemma SessionStopsAfter(sp: SPState, payload: seq<byte>, P: nat, origin: Origin, fate: int -> Fate,
                          r: (SPState, bool), first: nat, ideal: seq<Post>, j: nat)
    requires P > 0 && payload != [] && sp.stored <= payload && StartOffset(origin, sp.stored).Some?
    requires r == Session(sp, payload, Ends, |payload|, P, origin, fate)
    requires first == (if origin.Created? then |sp.stored| / P else 0) + 1
    requires ideal == Ideal(payload, P, CeilDiv(|payload|, P), first) && j <= |ideal|
    requires forall i :: first <= i < first + j ==> fate(i).Sent?
    requires j < |ideal| ==> !fate(first + j).Sent?
    ensures StopsAfter(sp, r, payload, ideal, j, fate(first + j))
  {
    QuotientIs(0, P, 0);
    FirstPartBelow(StartOffset(origin, sp.stored).value, P);
    var k, pos := SessionIsUpload(sp, payload, Ends, |payload|, P, origin, fate);
    LoopStopsAfter(sp, payload, P, CeilDiv(|payload|, P), k, pos, fate, r, ideal, j, fate(first + j));
  }

  // ---------- the order of the checks, for every reader ----------

  lemma Advance(sp: SPState, payload: seq<byte>, m: nat, tail: Tail, P: nat, total: nat, k: nat, pos: nat,
                fate: int -> Fate, r: (SPState, bool))
    returns (p: Post, next: SPState)
    requires P > 0 && pos + P <= m <= |payload| && k <= total && fate(k).Sent?
    requires sp.stored <= payload && pos <= |sp.stored|
    requires r == Uploaded(sp, payload[..m], tail, P, total, k, pos, fate)
    ensures next.stored <= payload && |next.stored| == Max(|sp.stored|, pos + P)
    ensures next.posts == sp.posts + [p]
    ensures r == Uploaded(next, payload[..m], tail, P, total, k + 1, pos + P, fate)
  {
    var accepted;
    p, accepted := WholePartStep(sp, payload, m, tail, P, total, k, pos, fate, r);
    next := Received(sp, p, fate(k));
  }

  lemma Multiples(pos: nat, j: nat, P: nat)
    requires j > 0
    ensures pos + j * P == pos + P + (j - 1) * P && (j - 1) * P >= 0
  {
  }

  /** j accepted whole parts take the loop from part k to part k+j. */
  lemma {:induction false} LoopReaches(sp: SPState, payload: seq<byte>, m: nat, tail: Tail, P: nat, total: nat, k: nat,
                                       pos: nat, j: nat, end: nat, fate: int -> Fate, r: (SPState, bool))
    returns (at: SPState)
    requires P > 0 && k >= 1 && k + j <= total + 1 && end == pos + j * P && end <= m <= |payload|
    requires sp.stored <= payload && pos <= |sp.stored|
    requires forall i :: k <= i < k + j ==> fate(i).Sent?
    requires r == Uploaded(sp, payload[..m], tail, P, total, k, pos, fate)
    ensures at.stored <= payload && |at.stored| == Max(|sp.stored|, end)
    ensures sp.posts <= at.posts && |at.posts| == |sp.posts| + j
    ensures r == Uploaded(at, payload[..m], tail, P, total, k + j, end, fate)
    decreases j
  {
    if j == 0 {
      at := sp;
    } else {
      assert fate(k).Sent?;
      Multiples(pos, j, P);
      var p, next := Advance(sp, payload, m, tail, P, total, k, pos, fate, r);
      at := LoopReaches(next, payload, m, tail, P, total, k + 1, pos + P, j - 1, end, fate, r);
      AfterPost(sp.posts, p, at.posts);
    }
  }

  /** What the next part decides, in this order: the end of the object, the hook, a reader that is used
      up or has broken (both end the session with nil), the routing query, and only then the network. */
  predicate Decided(at: SPState, r: (SPState, bool), k: nat, total: nat, pos: nat, left: nat, P: nat, tail: Tail,
                    fate: Fate) {
    if k > total then r == (at, true)
    else if fate.HookFails? then r == (at, false)
    else if left == 0 && tail == Ends && k > 1 then r == (at, true)
    else if left < P && tail == Breaks then r == (at, true)
    else if fate.RouteFails? then r == (at, false)
    else at.posts < r.0.posts && r.0.posts[|at.posts|].offset == pos && (r.1 ==> fate.Sent?)
  }

  lemma PartDecides(at: SPState, payload: seq<byte>, m: nat, tail: Tail, P: nat, total: nat, k: nat, pos: nat,
                    fate: int -> Fate, r: (SPState, bool))
    requires P > 0 && pos <= m <= |payload|
    requires r == Uploaded(at, payload[..m], tail, P, total, k, pos, fate)
    ensures Decided(at, r, k, total, pos, m - pos, P, tail, fate(k))
  {
    var data := payload[pos..Min(pos + P, m)];
    var p := Post(pos, data, k == total);
    PartOf(payload, m, P, pos);
    UploadedStep(at, payload[..m], tail, P, total, k, pos, fate);
    if Posts(payload[..m], tail, P, total, k, pos, fate) && Accepted(at.stored, p, fate(k)) && data != [] {
      LoopStarts(Received(at, p, fate(k)), payload[..m], tail, P, total, k + 1, pos + |data|, fate, r);
      AfterPost(at.posts, p, r.0.posts);
    }
  }

  lemma LoopDecides(sp: SPState, payload: seq<byte>, m: nat, tail: Tail, P: nat, total: nat, k: nat, start: nat, j: nat,
                    pos: nat, fate: int -> Fate, r: (SPState, bool))
    returns (at: SPState)
    requires P > 0 && k >= 1 && k + j <= total + 1 && pos == start + j * P && pos <= m <= |payload|
    requires sp.stored <= payload && start <= |sp.stored|
    requires forall i :: k <= i < k + j ==> fate(i).Sent?
    requires r == Uploaded(sp, payload[..m], tail, P, total, k, start, fate)
    ensures at.stored <= payload && |at.stored| == Max(|sp.stored|, pos)
    ensures sp.posts <= at.posts && |at.posts| == |sp.posts| + j
    ensures Decided(at, r, k + j, total, pos, m - pos, P, tail, fate(k + j))
  {
    at := LoopReaches(sp, payload, m, tail, P, total, k, start, j, pos, fate, r);
    PartDecides(at, payload, m, tail, P, total, k + j, pos, fate, r);
  }

  lemma StartBelow(first: nat, j: nat, P: nat)
    requires first >= 1
    ensures (first - 1) * P >= 0 && j * P >= 0
  {
  }

  /** For every reader: after j accepted whole parts of a session the next part decides. */
  lemma SessionDecides(sp: SPState, payload: seq<byte>, m: nat, tail: Tail, P: nat, origin: Origin, fate: int -> Fate,
                       r: (SPState, bool), first: nat, j: nat, pos: nat)
    returns (at: SPState)
    requires P > 0 && m <= |payload| && sp.stored <= payload && StartOffset(origin, sp.stored).Some?
    requires r == Session(sp, payload[..m], tail, |payload|, P, origin, fate)
    requires first == (if origin.Created? then |sp.stored| / P else 0) + 1
    requires pos == (first - 1) * P + j * P && pos <= m && first + j <= CeilDiv(|payload|, P) + 1
    requires forall i :: first <= i < first + j ==> fate(i).Sent?
    ensures at.stored <= payload && |at.stored| == Max(|sp.stored|, pos)
    ensures sp.posts <= at.posts && |at.posts| == |sp.posts| + j
    ensures Decided(at, r, first + j, CeilDiv(|payload|, P), pos, m - pos, P, tail, fate(first + j))
  {
    var total := CeilDiv(|payload|, P);
    QuotientIs(0, P, 0);
    StartBelow(first, j, P);
    var k, start := SessionIsUpload(sp, payload[..m], tail, |payload|, P, origin, fate);
    at := LoopDecides(sp, payload, m, tail, P, total, k, start, j, pos, fate, r);
  }
}
