/** What a session of the resumable upload that returns nil has achieved, for readers that may supply
    less than the object or break with an error. */
module UploadNil {
  import opened GoSemantics
  import opened Readers
  import opened Upload
  import opened UploadRuns

  ghost predicate AllSent(fate: int -> Fate) { forall k :: fate(k) == Sent }

  predicate MarksComplete(posts: seq<Post>) {
    exists i :: 0 <= i < |posts| && posts[i].complete
  }

  /** How many of m supplied bytes a session posts before it ends: all of them if the reader ends, only
      whole parts if it breaks with an error. */
  function Reach(m: nat, tail: Tail, P: nat): nat
    requires P > 0
  {
    if tail == Ends then m else m / P * P
  }

  /** Whether m supplied bytes make the loop post part `total`, the one marked complete: the reader ends
      inside that part or after it (an empty only part is posted, too), or breaks after it. */
  predicate ReachesFinalPart(m: nat, tail: Tail, P: nat, total: int) {
    if tail == Ends then m > (total - 1) * P || total == 1 else m >= total * P
  }

  // ---------- posts ----------

  lemma AfterPost(before: seq<Post>, p: Post, after: seq<Post>)
    requires before + [p] <= after
    ensures before <= after && after[|before|..] == [p] + after[|before| + 1..]
  {
  }

  lemma MarksCons(p: Post, rest: seq<Post>)
    ensures MarksComplete([p] + rest) <==> p.complete || MarksComplete(rest)
  {
    var all := [p] + rest;
    if p.complete {
      assert all[0].complete;
    }
    if MarksComplete(rest) {
      var i :| 0 <= i < |rest| && rest[i].complete;
      assert all[i + 1].complete;
    }
    if MarksComplete(all) && !p.complete {
      var i :| 0 <= i < |all| && all[i].complete;
      assert rest[i - 1].complete;
    }
  }

  /** What a loop achieved that may have posted: its posts extend the earlier ones; without failures it
      returns nil; and if it returns nil it stored `reach` bytes and marked completion as told. */
  ghost predicate Achieved(before: SPState, r: (SPState, bool), payload: seq<byte>, fate: int -> Fate,
                           reach: nat, marks: bool)
    requires reach <= |payload|
  {
    && before.posts <= r.0.posts
    && (AllSent(fate) ==> r.1)
    && (r.1 ==> r.0.stored == payload[..reach])
    && (r.1 ==> (MarksComplete(r.0.posts[|before.posts|..]) <==> marks))
  }

  lemma NothingPosted(sp: SPState, r: (SPState, bool), payload: seq<byte>, fate: int -> Fate)
    requires sp.stored <= payload && r.0 == sp && (AllSent(fate) ==> r.1)
    ensures Achieved(sp, r, payload, fate, |sp.stored|, false)
  {
    assert sp.posts[|sp.posts|..] == [];
  }

  /** One post in front of what the rest of the loop achieved. */
  lemma OnePostMore(sp: SPState, p: Post, fate: Fate, fates: int -> Fate, r: (SPState, bool), payload: seq<byte>,
                    reach: nat, marks: bool)
    requires reach <= |payload|
    requires Achieved(Received(sp, p, fate), r, payload, fates, reach, marks)
    ensures Achieved(sp, r, payload, fates, reach, p.complete || marks)
  {
    AfterPost(sp.posts, p, r.0.posts);
    MarksCons(p, r.0.posts[|sp.posts| + 1..]);
  }

  /** A post that was not accepted, or that ends the session. */
  lemma OnePostLast(sp: SPState, p: Post, fate: Fate, fates: int -> Fate, ok: bool, payload: seq<byte>)
    requires Store(sp.stored, p, fate) <= payload && (AllSent(fates) ==> ok)
    ensures Achieved(sp, (Received(sp, p, fate), ok), payload, fates, |Store(sp.stored, p, fate)|, p.complete)
  {
    var next := Received(sp, p, fate);
    NothingPosted(next, (next, ok), payload, fates);
    OnePostMore(sp, p, fate, fates, (next, ok), payload, |next.stored|, false);
  }

  // ---------- the cases of one iteration ----------

  lemma PartOf(payload: seq<byte>, m: nat, P: nat, pos: nat)
    requires P > 0 && pos <= m <= |payload|
    ensures PartData(payload[..m], P, pos) == payload[pos..Min(pos + P, m)]
  {
  }

  /** A failed session promises only that its posts extend the earlier ones. */
  lemma FailedSession(sp: SPState, r: (SPState, bool), payload: seq<byte>, fate: int -> Fate, reach: nat, marks: bool)
    requires reach <= |payload| && sp.posts <= r.0.posts && !r.1 && !AllSent(fate)
    ensures Achieved(sp, r, payload, fate, reach, marks)
  {
  }

  lemma ReachInside(m: nat, tail: Tail, P: nat, k: nat, pos: nat)
    requires P > 0 && k >= 1 && pos == (k - 1) * P && pos <= m
    ensures pos + P <= m ==> pos + P <= Reach(m, tail, P) <= m
    ensures m < pos + P ==> Reach(m, tail, P) == if tail == Ends then m else pos
    ensures Reach(m, tail, P) <= m
  {
    QuotientBounds(m, P);
    if m < pos + P {
      QuotientIs(m, P, k - 1);
    } else {
      var d := m / P - k;
      assert m / P * P == k * P + P * d;
      MultipleSize(P, d);
    }
  }

  lemma FinalPartInside(m: nat, tail: Tail, P: nat, total: nat, k: nat, pos: nat)
    requires P > 0 && 1 <= k <= total && pos == (k - 1) * P && pos <= m < pos + P
    ensures tail == Breaks ==> !ReachesFinalPart(m, tail, P, total)
    ensures tail == Ends ==> (ReachesFinalPart(m, tail, P, total) <==> k == total && (m > pos || k == 1))
  {
    MultipleSize(P, total - k);
    assert (total - 1) * P == pos + P * (total - k);
    assert total * P == pos + P + P * (total - k);
    if total == 1 {
      assert k == 1;
    }
  }

  lemma FinalPartReached(m: nat, tail: Tail, P: nat, total: nat)
    requires P > 0 && total * P <= m
    ensures ReachesFinalPart(m, tail, P, total)
  {
    assert (total - 1) * P == total * P - P;
  }

  /** A short last part of a reader that ends is posted; the next read finds nothing. */
  lemma ShortPost(sp: SPState, payload: seq<byte>, m: nat, P: nat, total: nat, k: nat, pos: nat,
                  fate: int -> Fate, r: (SPState, bool))
    requires P > 0 && 1 <= k <= total && pos < m < pos + P && m <= |payload|
    requires sp.stored <= payload && pos <= |sp.stored|
    requires var p := Post(pos, payload[pos..m], k == total);
      && Accepted(sp.stored, p, fate(k))
      && r == Uploaded(Received(sp, p, fate(k)), payload[..m], Ends, P, total, k + 1, m, fate)
    ensures Achieved(sp, r, payload, fate, Max(|sp.stored|, m), k == total)
  {
    var p := Post(pos, payload[pos..m], k == total);
    var next := Received(sp, p, fate(k));
    StoreKeepsPrefix(sp.stored, payload, p, fate(k));
    UploadedStep(next, payload[..m], Ends, P, total, k + 1, m, fate);
    NothingPosted(next, r, payload, fate);
    OnePostMore(sp, p, fate(k), fate, r, payload, |next.stored|, false);
  }

  /** The last iteration: fewer than P bytes are left. */
  lemma Remainder(sp: SPState, payload: seq<byte>, m: nat, tail: Tail, P: nat, total: nat, k: nat, pos: nat,
                  fate: int -> Fate, r: (SPState, bool))
    requires P > 0 && 1 <= k <= total && pos == (k - 1) * P && pos <= m < pos + P && m <= |payload|
    requires sp.stored <= payload && pos <= |sp.stored|
    requires r == Uploaded(sp, payload[..m], tail, P, total, k, pos, fate)
    ensures Achieved(sp, r, payload, fate, Max(|sp.stored|, if tail == Ends then m else pos),
                     tail == Ends && k == total && (m > pos || k == 1))
  {
    var data := payload[pos..m];
    var p := Post(pos, data, k == total);
    var reach := Max(|sp.stored|, if tail == Ends then m else pos);
    var marks := tail == Ends && k == total && (m > pos || k == 1);
    PartOf(payload, m, P, pos);
    UploadedStep(sp, payload[..m], tail, P, total, k, pos, fate);
    if !Posts(payload[..m], tail, P, total, k, pos, fate) {
      if r.1 {
        NothingPosted(sp, r, payload, fate);
      } else {
        FailedSession(sp, r, payload, fate, reach, marks);
      }
    } else if !Accepted(sp.stored, p, fate(k)) {
      FailedSession(sp, r, payload, fate, reach, marks);
    } else if data == [] {
      EmptyPost(sp.stored, p, fate(k));
      OnePostLast(sp, p, fate(k), fate, true, payload);
    } else {
      ShortPost(sp, payload, m, P, total, k, pos, fate, r);
    }
  }

  /** One iteration with a whole part: the session fails, or the part is stored and the loop goes on. */
  lemma WholePartStep(sp: SPState, payload: seq<byte>, m: nat, tail: Tail, P: nat, total: nat, k: nat, pos: nat,
                      fate: int -> Fate, r: (SPState, bool))
    returns (p: Post, accepted: bool)
    requires P > 0 && pos + P <= m <= |payload| && k <= total
    requires sp.stored <= payload && pos <= |sp.stored|
    requires r == Uploaded(sp, payload[..m], tail, P, total, k, pos, fate)
    ensures p.offset == pos && |p.data| == P && (p.complete <==> k == total)
    ensures accepted <==> fate(k).Sent?
    ensures !accepted ==> sp.posts <= r.0.posts && !r.1 && !AllSent(fate)
    ensures accepted ==> r == Uploaded(Received(sp, p, fate(k)), payload[..m], tail, P, total, k + 1, pos + P, fate)
    ensures accepted ==> var after := Store(sp.stored, p, fate(k)); after <= payload && |after| == Max(|sp.stored|, pos + P)
  {
    p := Post(pos, payload[pos..pos + P], k == total);
    accepted := !fate(k).HookFails? && !fate(k).RouteFails? && Accepted(sp.stored, p, fate(k));
    PartOf(payload, m, P, pos);
    UploadedStep(sp, payload[..m], tail, P, total, k, pos, fate);
    StoreKeepsPrefix(sp.stored, payload, p, fate(k));
  }

  /** From part k on, with the reader at that part: what the loop achieves for every number of bytes the
      reader still supplies. */
  lemma {:induction false} LoopAchieves(sp: SPState, payload: seq<byte>, m: nat, tail: Tail, P: nat, k: nat, pos: nat,
                                        fate: int -> Fate, r: (SPState, bool))
    requires P > 0 && payload != [] && m <= |payload| && k >= 1 && pos == (k - 1) * P && pos <= m
    requires sp.stored <= payload && pos <= |sp.stored|
    requires r == Uploaded(sp, payload[..m], tail, P, CeilDiv(|payload|, P), k, pos, fate)
    ensures Reach(m, tail, P) <= m
    ensures var total := CeilDiv(|payload|, P);
      Achieved(sp, r, payload, fate, Max(|sp.stored|, Reach(m, tail, P)), k <= total && ReachesFinalPart(m, tail, P, total))
    decreases CeilDiv(|payload|, P) + 1 - k
  {
    var total := CeilDiv(|payload|, P);
    PartOffsets(|payload|, P, k);
    ReachInside(m, tail, P, k, pos);
    if k > total {
      UploadedStep(sp, payload[..m], tail, P, total, k, pos, fate);
      NothingPosted(sp, r, payload, fate);
    } else if m < pos + P {
      FinalPartInside(m, tail, P, total, k, pos);
      Remainder(sp, payload, m, tail, P, total, k, pos, fate, r);
    } else {
      WholePart(sp, payload, m, tail, P, total, k, pos, fate, r);
    }
  }

  /** A whole part is posted and the loop goes on behind it. */
  lemma {:induction false} WholePart(sp: SPState, payload: seq<byte>, m: nat, tail: Tail, P: nat, total: nat, k: nat,
                                     pos: nat, fate: int -> Fate, r: (SPState, bool))
    requires P > 0 && payload != [] && pos + P <= m <= |payload| && 1 <= k <= total && pos == (k - 1) * P
    requires total == CeilDiv(|payload|, P)
    requires sp.stored <= payload && pos <= |sp.stored| && pos + P <= Reach(m, tail, P) <= m
    requires r == Uploaded(sp, payload[..m], tail, P, total, k, pos, fate)
    ensures Achieved(sp, r, payload, fate, Max(|sp.stored|, Reach(m, tail, P)), ReachesFinalPart(m, tail, P, total))
    decreases total + 1 - k, 0
  {
    var reach, marks := Max(|sp.stored|, Reach(m, tail, P)), ReachesFinalPart(m, tail, P, total);
    var p, accepted := WholePartStep(sp, payload, m, tail, P, total, k, pos, fate, r);
    if !accepted {
      FailedSession(sp, r, payload, fate, reach, marks);
    } else {
      assert pos + P == (k + 1 - 1) * P;
      LoopAchieves(Received(sp, p, fate(k)), payload, m, tail, P, k + 1, pos + P, fate, r);
      OnePostMore(sp, p, fate(k), fate, r, payload, reach, k + 1 <= total && marks);
      if k == total {
        FinalPartReached(m, tail, P, total);
      }
    }
  }

  // ---------- a reader that ends while parts are skipped ----------

  lemma {:induction false} SkipsShort(stream: seq<byte>, tail: Tail, P: nat, k: nat, pos: nat, first: nat)
    requires P > 0 && 1 <= k <= first && |stream| < (first - 1) * P && pos == Min((k - 1) * P, |stream|)
    ensures Skipped(stream, tail, P, k, pos, first).0 > 1
    ensures Skipped(stream, tail, P, k, pos, first).1 == |stream|
    decreases first - k
  {
    if k < first && !(pos >= |stream| && tail == Ends && k > 1) {
      assert (k + 1 - 1) * P == (k - 1) * P + P;
      SkipsShort(stream, tail, P, k + 1, if pos + P <= |stream| then pos + P else |stream|, first);
    }
  }

  lemma ShortSession(sp: SPState, payload: seq<byte>, m: nat, tail: Tail, P: nat, origin: Origin, fate: int -> Fate)
    requires P > 0 && m <= |payload| && sp.stored <= payload && StartOffset(origin, sp.stored).Some?
    requires m < (FirstPart(StartOffset(origin, sp.stored).value, P) - 1) * P
    ensures Achieved(sp, Session(sp, payload[..m], tail, |payload|, P, origin, fate), payload, fate, |sp.stored|, false)
  {
    var stream, total := payload[..m], CeilDiv(|payload|, P);
    var first := FirstPart(StartOffset(origin, sp.stored).value, P);
    SkipsShort(stream, tail, P, 1, 0, first);
    var (k, pos) := Skipped(stream, tail, P, 1, 0, first);
    UploadedStep(sp, stream, tail, P, total, k, pos, fate);
    NothingPosted(sp, Uploaded(sp, stream, tail, P, total, k, pos, fate), payload, fate);
  }

  // ---------- every session ----------

  lemma NoFinalPart(m: nat, tail: Tail, P: nat, total: int, first: nat, size: nat)
    requires P > 0 && size > 0 && total == CeilDiv(size, P) && m < (first - 1) * P
    ensures !(first <= total && ReachesFinalPart(m, tail, P, total))
  {
    if first <= total {
      MultipleSize(P, total - first);
      assert (total - 1) * P == (first - 1) * P + P * (total - first);
      assert total * P == (total - 1) * P + P;
    }
  }

  /** For every stored prefix, every way to learn the offset, every fate of the parts and every reader
      that supplies the first m bytes of the payload and then ends or breaks: a session without failures
      returns nil; a session that returns nil leaves the provider with the longer of what it held and
      what the reader allowed to be posted; and it has sent a complete mark exactly when the final part
      was still to be posted and the reader reached it. */
  lemma NilMeans(sp: SPState, payload: seq<byte>, m: nat, tail: Tail, P: nat, origin: Origin, fate: int -> Fate,
                 r: (SPState, bool))
    requires P > 0 && payload != [] && m <= |payload| && sp.stored <= payload && StartOffset(origin, sp.stored).Some?
    requires r == Session(sp, payload[..m], tail, |payload|, P, origin, fate)
    ensures Reach(m, tail, P) <= m
    ensures var first := FirstPart(StartOffset(origin, sp.stored).value, P);
            var total := CeilDiv(|payload|, P);
      Achieved(sp, r, payload, fate, Max(|sp.stored|, Reach(m, tail, P)),
               first <= total && ReachesFinalPart(m, tail, P, total))
  {
    var offset := StartOffset(origin, sp.stored).value;
    var first := FirstPart(offset, P);
    QuotientBounds(m, P);
    FirstPartBelow(offset, P);
    if m < (first - 1) * P {
      NoFinalPart(m, tail, P, CeilDiv(|payload|, P), first, |payload|);
      ShortSession(sp, payload, m, tail, P, origin, fate);
    } else {
      var k, pos := SessionIsUpload(sp, payload[..m], tail, |payload|, P, origin, fate);
      LoopAchieves(sp, payload, m, tail, P, k, pos, fate, r);
    }
  }

  /** So nil means that the provider holds the whole payload exactly when it did before or the reader
      supplied, and reached the network with, all of it. */
  lemma NilMeansWhole(sp: SPState, payload: seq<byte>, m: nat, tail: Tail, P: nat, origin: Origin, fate: int -> Fate,
                      r: (SPState, bool))
    requires P > 0 && payload != [] && m <= |payload| && sp.stored <= payload && StartOffset(origin, sp.stored).Some?
    requires r == Session(sp, payload[..m], tail, |payload|, P, origin, fate) && r.1
    ensures r.0.stored == payload <==> |sp.stored| == |payload| || Reach(m, tail, P) == |payload|
  {
    NilMeans(sp, payload, m, tail, P, origin, fate, r);
    var reach := Max(|sp.stored|, Reach(m, tail, P));
    assert payload[..reach] == payload <==> reach == |payload|;
  }

  /** With a reader that supplies exactly the payload a session that returns nil sent the mark, unless the
      provider already held every byte and the object is a whole number of parts: then nothing is
      posted, so if the last request broke after its bytes were stored the mark is never sent. */
  lemma NilMarksComplete(sp: SPState, payload: seq<byte>, P: nat, origin: Origin, fate: int -> Fate, r: (SPState, bool))
    requires P > 0 && payload != [] && sp.stored <= payload && StartOffset(origin, sp.stored).Some?
    requires r == Session(sp, payload, Ends, |payload|, P, origin, fate) && r.1
    ensures sp.posts <= r.0.posts
    ensures MarksComplete(r.0.posts[|sp.posts|..])
       <==> !(StartOffset(origin, sp.stored).value == |payload| && |payload| % P == 0)
  {
    assert payload[..|payload|] == payload;
    NilMeans(sp, payload, |payload|, Ends, P, origin, fate, r);
    CeilDivBounds(|payload|, P);
    FinalPartOpen(StartOffset(origin, sp.stored).value, |payload|, P);
  }

  /** A reader that ends inside the final part: without failures the short part is posted with the
      complete mark and nil is returned, although the provider lacks the end of the object. */
  lemma TruncatedButComplete(sp: SPState, payload: seq<byte>, m: nat, P: nat, origin: Origin, fate: int -> Fate,
                             r: (SPState, bool))
    requires P > 0 && payload != [] && sp.stored <= payload && StartOffset(origin, sp.stored).Some? && AllSent(fate)
    requires (CeilDiv(|payload|, P) - 1) * P < m < |payload| && |sp.stored| < |payload|
    requires r == Session(sp, payload[..m], Ends, |payload|, P, origin, fate)
    ensures r.1 && sp.posts <= r.0.posts && MarksComplete(r.0.posts[|sp.posts|..]) && r.0.stored != payload
  {
    NilMeans(sp, payload, m, Ends, P, origin, fate, r);
    FinalPartOpen(StartOffset(origin, sp.stored).value, |payload|, P);
  }
}
