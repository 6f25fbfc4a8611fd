/** The resumable download next to the plain one (client/api_object.go, FGetObject), which sends the
    caller's Range option to the provider as it is. */
module DownloadPlain {
  import opened GoSemantics
  import opened Ranges
  import opened RangeStandard
  import opened DownloadSteps
  import opened DownloadRuns

  /** The client takes the text for no range, or for one from 0 to the end. */
  predicate MeansAll(client: Parsed, size: nat) {
    !client.isRange || (client.start == 0 && (client.end < 0 || client.end >= size - 1))
  }

  /** Which headers make both downloads aim at the same bytes. A range with a first position must start
      inside the payload, and its last position must fit in int64 unless the whole payload is meant; a
      suffix must cover the payload; a text the provider ignores must mean the whole payload to the
      client too. */
  predicate SameBytes(header: string, size: nat) {
    match ReadHeader(header)
    case From(a) => a < size
    case FromTo(a, b) => a < size && (b <= MAX_INT64 || a == 0)
    case Suffix(n) => n > 0 && n >= size
    case Ignored => size == 0 || MeansAll(ParseRange(header), size)
  }

  lemma WholeSlice(payload: seq<byte>, from: int, to: int)
    requires to <= |payload| && payload != []
    ensures Slice(payload, from, to) == payload <==> from == 0 && to == |payload|
  {
  }

  lemma TargetOf(payload: seq<byte>, header: string)
    requires ReadHeader(header) != Ignored && |payload| <= MAX_INT64
    ensures Target(payload, Wanted(header, |payload|))
         == match ReadHeader(header)
            case From(a) => if a <= MAX_INT64 then Slice(payload, a, |payload|) else payload
            case FromTo(a, b) => if b <= MAX_INT64 then Slice(payload, a, Min(b + 1, |payload|)) else payload
            case Suffix(_) => payload
  {
    ClientReading(header);
    assert payload[0..|payload|] == payload;
  }

  /** The resumable download aims at exactly the bytes the plain one receives if and only if the header
      is one of those; this decides every header text. */
  lemma PlainDownloadAgrees(payload: seq<byte>, header: string)
    requires |payload| <= MAX_INT64
    ensures Serve(payload, header) == Some(Target(payload, Wanted(header, |payload|))) <==> SameBytes(header, |payload|)
  {
    var size := |payload|;
    match ReadHeader(header)
    case Ignored =>
      if payload != [] {
        WholeSlice(payload, Wanted(header, size).first, Wanted(header, size).last + 1);
      }
    case From(a) =>
      TargetOf(payload, header);
      assert a <= size ==> payload[a..size] == payload[a..];
    case FromTo(a, b) =>
      TargetOf(payload, header);
      if a < size && b > MAX_INT64 {
        WholeSlice(payload, a, size);
      }
    case Suffix(n) =>
      TargetOf(payload, header);
      assert n >= size ==> payload[0..] == payload;
  }

  /** A suffix range shorter than the payload is one of the headers that differ: the plain download
      gets the last bytes, the resumable one everything. */
  lemma SuffixDownloadsAll(payload: seq<byte>, n: nat)
    requires 0 < n < |payload| <= MAX_INT64
    ensures var header := "bytes=-" + Decimal(n);
      && Serve(payload, header) == Some(payload[|payload| - n..])
      && Target(payload, Wanted(header, |payload|)) == payload
  {
    var e := Decimal(n);
    var header := "bytes=-" + e;
    assert header == PREFIX + "" + "-" + e;
    ReadText("", e);
    PositionOfDecimal(n);
    TargetOf(payload, header);
  }
}
