/** Reconstruction of the checkpoint source from a session's event stream
    (src/application/compression/checkpoint-source.ts, checkpointEvents and checkpointSource). */
module CheckpointSource {
  import opened Foundation

  const PAGE: nat := 64
  const MAX_STREAM_READ_LIMIT: nat := 1000
  const CONTENT_BYTES: nat := 4 * 1024 * 1024
  const MAX_HISTORY_ITEMS: nat := 64

  /** Something that starts and completes: a turn, a model attempt or a capability invocation. */
  datatype Activity = Turn(id: string) | Attempt(id: string) | Invocation(id: string)

  datatype Payload = CheckpointPayload | RestorePointPayload | ContentPayload

  datatype Kind = Starts(activity: Activity) | Completes(activity: Activity) | History(payload: Payload) | OtherKind

  /** `bytes` is the size of the event's JSON encoding. */
  datatype Event = Event(sequence: nat, eventId: string, kind: Kind, bytes: nat)

  type Stream = seq<Event>

  /** Stored events have strictly ascending sequence numbers, possibly with gaps. */
  ghost predicate Ascending(stream: Stream) {
    forall i, j | 0 <= i < j < |stream| :: stream[i].sequence < stream[j].sequence
  }

  /** Sequence numbers 1, 2, 3, ... */
  ghost predicate GapFree(stream: Stream) {
    forall i | 0 <= i < |stream| :: stream[i].sequence == i + 1
  }

  datatype Refusal =
    | EventLimit | SequenceGap | EventByteLimit | EmptyHistory | SourceMissing | Unauthorized
    | Busy | ItemLimit | Unreadable

  datatype Result<T> = Ok(value: T) | Err(refusal: Refusal)

  function TotalBytes(events: seq<Event>): nat {
    if events == [] then 0 else TotalBytes(events[..|events| - 1]) + events[|events| - 1].bytes
  }

  predicate Past(through: Option<int>, event: Event) {
    through.Some? && event.sequence > through.value
  }

  // ---- One page, by definition ----

  datatype Scan = Reached(count: nat) | Refused(refusal: Refusal)

  /** Accepts stored events from position `n` up to `end`, in order. */
  function ScanFrom(stream: Stream, through: Option<int>, n: nat, end: nat): (s: Scan)
    requires n <= end <= |stream|
    ensures s.Reached? ==> n <= s.count <= end
    decreases end - n
  {
    if n == end || Past(through, stream[n]) then Reached(n)
    else if n >= MAX_STREAM_READ_LIMIT then Refused(EventLimit)
    else if stream[n].sequence != n + 1 then Refused(SequenceGap)
    else if TotalBytes(stream[..n + 1]) > CONTENT_BYTES then Refused(EventByteLimit)
    else ScanFrom(stream, through, n + 1, end)
  }

  datatype Paging = More(count: nat) | Stop(scan: Scan)

  function PageEnd(stream: Stream, n: nat): (end: nat)
    requires n <= |stream|
    ensures n <= end <= |stream|
  {
    if |stream| - n <= PAGE then |stream| else n + PAGE
  }

  /** One round of the paging loop with the first `n` events already taken. */
  function OnePage(stream: Stream, through: Option<int>, n: nat): (p: Paging)
    requires n <= |stream|
    ensures p.More? ==> n <= p.count <= |stream|
  {
    var end := PageEnd(stream, n);
    AfterScan(stream, through, end - n, ScanFrom(stream, through, n, end))
  }

  /** A refusal, a short page or the bound reached ends the loop. */
  function AfterScan(stream: Stream, through: Option<int>, size: nat, scan: Scan): (p: Paging)
    requires scan.Reached? ==> scan.count <= |stream|
  {
    if scan.Refused? || size < PAGE || ReachesBound(stream[..scan.count], through) then Stop(scan) else More(scan.count)
  }

  predicate ReachesBound(events: seq<Event>, through: Option<int>) {
    through.Some? && events != [] && events[|events| - 1].sequence >= through.value
  }

  /** The paging loop after a number of rounds. */
  function Rounds(stream: Stream, through: Option<int>, rounds: nat): (p: Paging)
    ensures p.More? ==> p.count <= |stream|
  {
    if rounds == 0 then More(0)
    else
      match Rounds(stream, through, rounds - 1)
      case Stop(scan) => Stop(scan)
      case More(n) => OnePage(stream, through, n)
  }

  // ---- Where the loop ends ----

  /** The loop never ends: the first `k` events are acceptable but stop short of `through`, the next
      one is past it, and a full page of later events keeps being read. */
  ghost predicate StuckAt(stream: Stream, through: Option<int>, k: nat) {
    && through.Some? && k + PAGE <= |stream| && k <= MAX_STREAM_READ_LIMIT
    && (forall i | 0 <= i < k :: stream[i].sequence == i + 1)
    && stream[k].sequence > through.value
    && (k == 0 || (k < through.value && TotalBytes(stream[..k]) <= CONTENT_BYTES))
  }

  ghost predicate Stuck(stream: Stream, through: Option<int>) {
    exists k: nat :: StuckAt(stream, through, k)
  }

  lemma {:induction false} ScanStops(stream: Stream, through: Option<int>, n: nat, end: nat, k: nat)
    requires n <= end <= |stream| && n <= k <= |stream|
    requires (forall i | n <= i < k :: !Past(through, stream[i])) && (k < |stream| ==> Past(through, stream[k]))
    ensures ScanFrom(stream, through, n, end).Reached? ==>
      ScanFrom(stream, through, n, end).count == (if k < end then k else end)
    decreases end - n
  {
    if n < end && n < k {
      ScanStops(stream, through, n + 1, end, k);
    }
  }

  /** Scanning in two pieces is scanning at once. */
  lemma {:induction false} ScanSplits(stream: Stream, through: Option<int>, n: nat, mid: nat, end: nat)
    requires n <= mid <= end <= |stream|
    ensures var first := ScanFrom(stream, through, n, mid);
      if first == Reached(mid) then ScanFrom(stream, through, n, end) == ScanFrom(stream, through, mid, end)
      else ScanFrom(stream, through, n, end) == first
    decreases mid - n
  {
    if n < mid && !Past(through, stream[n]) {
      if ScanFrom(stream, through, n, mid) == ScanFrom(stream, through, n + 1, mid) {
        ScanSplits(stream, through, n + 1, mid, end);
      }
    }
  }

  /** One more round of a stuck loop, short of position `k`, stays short of it. */
  lemma StuckRound(stream: Stream, through: Option<int>, n: nat, k: nat)
    requires Ascending(stream) && n <= k && k + PAGE <= |stream|
    requires (forall i | n <= i < k :: !Past(through, stream[i])) && Past(through, stream[k])
    requires through.Some? && (k == 0 || stream[k - 1].sequence < through.value)
    requires ScanFrom(stream, through, n, |stream|) == Reached(k)
    ensures var p := OnePage(stream, through, n);
      p.More? && n <= p.count <= k && ScanFrom(stream, through, p.count, |stream|) == Reached(k)
  {
    var end := n + PAGE;
    ScanStops(stream, through, n, end, k);
    ScanSplits(stream, through, n, end, |stream|);
    var c := if k < end then k else end;
    assert ScanFrom(stream, through, n, end) == Reached(c);
    NotYet(stream, through, c, k);
    ScanFromStop(stream, through, k, k);
  }

  lemma NotYet(stream: Stream, through: Option<int>, c: nat, k: nat)
    requires Ascending(stream) && c <= k <= |stream|
    requires through.Some? && (k == 0 || stream[k - 1].sequence < through.value)
    ensures !ReachesBound(stream[..c], through)
  {
    assert c > 0 ==> stream[c - 1].sequence <= stream[k - 1].sequence;
  }

  /** Where the loop is stuck is where a scan of the whole stream ends. */
  lemma {:induction false} StuckScan(stream: Stream, through: Option<int>, k: nat, i: nat)
    requires StuckAt(stream, through, k) && i <= k
    ensures ScanFrom(stream, through, i, |stream|) == Reached(k)
    decreases k - i
  {
    if i < k {
      StuckScan(stream, through, k, i + 1);
      BytesGrow(stream, i + 1, k);
    }
  }

  /** A stuck loop keeps going, whatever number of rounds it has made. */
  lemma {:induction false} StuckForever(stream: Stream, through: Option<int>, k: nat, rounds: nat)
    requires Ascending(stream) && StuckAt(stream, through, k)
    ensures var p := Rounds(stream, through, rounds);
      p.More? && p.count <= k && ScanFrom(stream, through, p.count, |stream|) == Reached(k)
  {
    if rounds == 0 {
      StuckScan(stream, through, k, 0);
    } else {
      StuckForever(stream, through, k, rounds - 1);
      StuckRound(stream, through, Rounds(stream, through, rounds - 1).count, k);
    }
  }

  /** What an accepted prefix satisfies. */
  lemma {:induction false} AcceptedPrefix(stream: Stream, through: Option<int>, i: nat, n: nat)
    requires i <= n <= |stream| && ScanFrom(stream, through, i, n) == Reached(n)
    ensures forall j | i <= j < n :: stream[j].sequence == j + 1
    ensures i < n ==> n <= MAX_STREAM_READ_LIMIT && TotalBytes(stream[..n]) <= CONTENT_BYTES
    decreases n - i
  {
    if i < n { AcceptedPrefix(stream, through, i + 1, n); }
  }

  lemma ScanFromStop(stream: Stream, through: Option<int>, n: nat, k: nat)
    requires n <= k <= |stream|
    ensures n == k && (k < |stream| ==> Past(through, stream[k])) ==> ScanFrom(stream, through, n, |stream|) == Reached(k)
  {
  }

  lemma {:induction false} ScanPrefix(stream: Stream, through: Option<int>, n: nat, end: nat)
    requires n <= end <= |stream| && ScanFrom(stream, through, n, end).Reached?
    ensures var c := ScanFrom(stream, through, n, end).count; ScanFrom(stream, through, n, c) == Reached(c)
    decreases end - n
  {
    if n < end && !Past(through, stream[n]) { ScanPrefix(stream, through, n + 1, end); }
  }

  /** A loop that is not stuck takes at least one more event in every round that it continues. */
  lemma ContinuesOnlyWithProgress(stream: Stream, through: Option<int>, n: nat)
    requires Ascending(stream) && n <= |stream| && ScanFrom(stream, through, 0, n) == Reached(n)
    requires OnePage(stream, through, n) == More(n)
    ensures Stuck(stream, through)
  {
    AcceptedPrefix(stream, through, 0, n);
    assert StuckAt(stream, through, n);
  }

  /** What one round leaves behind: the accepted prefix, or the answer for the whole stream. */
  lemma RoundMeaning(stream: Stream, through: Option<int>, n: nat)
    requires Ascending(stream) && n <= |stream| && ScanFrom(stream, through, 0, n) == Reached(n)
    ensures var p := OnePage(stream, through, n);
      if p.More? then ScanFrom(stream, through, 0, p.count) == Reached(p.count)
      else ScanFrom(stream, through, 0, |stream|) == p.scan
  {
    var end := PageEnd(stream, n);
    var scan := ScanFrom(stream, through, n, end);
    ScanSplits(stream, through, 0, n, |stream|);
    ScanSplits(stream, through, n, end, |stream|);
    if scan.Reached? {
      var c := scan.count;
      ScanPrefix(stream, through, n, end);
      ScanSplits(stream, through, 0, n, c);
      ScanSplits(stream, through, n, c, |stream|);
    }
  }

  /** The paging loop ends iff it is not stuck. */
  lemma PagingEndsExactly(stream: Stream, through: Option<int>)
    requires Ascending(stream)
    ensures (exists rounds: nat :: Rounds(stream, through, rounds).Stop?) <==> !Stuck(stream, through)
  {
    if Stuck(stream, through) {
      var k :| StuckAt(stream, through, k);
      forall rounds: nat ensures Rounds(stream, through, rounds).More? { StuckForever(stream, through, k, rounds); }
    } else {
      var rounds := EndsUnlessStuck(stream, through, 0, 0);
    }
  }

  /** From any round on, a loop that is not stuck reaches its last round. */
  lemma {:induction false} EndsUnlessStuck(stream: Stream, through: Option<int>, from: nat, n: nat) returns (rounds: nat)
    requires Ascending(stream) && !Stuck(stream, through)
    requires Rounds(stream, through, from) == More(n) && ScanFrom(stream, through, 0, n) == Reached(n)
    ensures Rounds(stream, through, rounds).Stop?
    decreases |stream| - n
  {
    var next := NextRound(stream, through, from, n);
    rounds := from + 1;
    if next.More? {
      rounds := EndsUnlessStuck(stream, through, from + 1, next.count);
    }
  }

  /** One more round of a loop that is not stuck is its last, or takes more events. */
  lemma NextRound(stream: Stream, through: Option<int>, from: nat, n: nat) returns (next: Paging)
    requires Ascending(stream) && !Stuck(stream, through)
    requires Rounds(stream, through, from) == More(n) && ScanFrom(stream, through, 0, n) == Reached(n)
    ensures Rounds(stream, through, from + 1) == next
    ensures next.More? ==> n < next.count <= |stream| && ScanFrom(stream, through, 0, next.count) == Reached(next.count)
  {
    next := OnePage(stream, through, n);
    RoundMeaning(stream, through, n);
    if next == More(n) { ContinuesOnlyWithProgress(stream, through, n); }
  }

  /** A gap-free stream with a sensible bound never gets the loop stuck. */
  lemma GapFreeNotStuck(stream: Stream, through: Option<int>)
    requires GapFree(stream) && (through.Some? ==> through.value >= 1)
    ensures !Stuck(stream, through)
  {
  }

  /** Two ways to hang the loop: a bound below the first event, and a gap before the bound. */
  lemma StuckExamples()
    ensures exists stream :: GapFree(stream) && Stuck(stream, Some(0))
    ensures exists stream :: Ascending(stream) && !GapFree(stream) && Stuck(stream, Some(2))
  {
    var dense := seq(64, (i: nat) => Event(i + 1, "e", OtherKind, 0));
    assert GapFree(dense) && StuckAt(dense, Some(0), 0);
    var gap := seq(65, (i: nat) => Event(if i == 0 then 1 else i + 2, "e", OtherKind, 0));
    assert TotalBytes(gap[..1]) == 0 by { assert gap[..1][..0] == []; }
    assert gap[1].sequence == 3;
    assert Ascending(gap) && !GapFree(gap) && StuckAt(gap, Some(2), 1);
  }

  // ---- The loops ----

  /** The event store's read: the first `limit` events after a sequence number. */
  function FirstAfter(stream: Stream, after: Option<nat>, i: nat): (f: nat)
    requires i <= |stream|
    ensures i <= f <= |stream|
    decreases |stream| - i
  {
    if i == |stream| || after.None? || stream[i].sequence > after.value then i else FirstAfter(stream, after, i + 1)
  }

  function ReadFrom(stream: Stream, after: Option<nat>, limit: nat): seq<Event> {
    var first := FirstAfter(stream, after, 0);
    if |stream| - first <= limit then stream[first..] else stream[first..first + limit]
  }

  lemma {:induction false} FirstAfterPrefix(stream: Stream, n: nat, i: nat)
    requires Ascending(stream) && i <= n <= |stream|
    ensures n > 0 ==> FirstAfter(stream, Some(stream[n - 1].sequence), i) == n
    decreases n - i
  {
    if i < n { FirstAfterPrefix(stream, n, i + 1); }
  }

  /** The sequence number after which the next page is read. */
  function LastSequence(events: seq<Event>): Option<nat> {
    if events == [] then None else Some(events[|events| - 1].sequence)
  }

  lemma NextPage(stream: Stream, events: seq<Event>)
    requires Ascending(stream) && events <= stream
    ensures ReadFrom(stream, LastSequence(events), PAGE) == stream[|events|..PageEnd(stream, |events|)]
  {
    FirstAfterPrefix(stream, |events|, 0);
    assert FirstAfter(stream, LastSequence(events), 0) == |events|;
  }

  lemma TakeOne(stream: Stream, n: nat)
    requires n < |stream|
    ensures stream[..n + 1] == stream[..n] + [stream[n]]
    ensures TotalBytes(stream[..n + 1]) == TotalBytes(stream[..n]) + stream[n].bytes
  {
    assert stream[..n + 1][..n] == stream[..n];
  }

  /** A prefix of the stream, with its size. */
  ghost predicate Taken(stream: Stream, events: seq<Event>, bytes: nat) {
    |events| <= |stream| && events == stream[..|events|] && bytes == TotalBytes(events)
  }

  /** The inner loop over one page accepts exactly what the scan accepts. */
  method ScanPage(ghost stream: Stream, through: Option<int>, page: seq<Event>, events0: seq<Event>, bytes0: nat)
    returns (scan: Scan, events: seq<Event>, bytes: nat)
    requires Taken(stream, events0, bytes0)
    requires |events0| + |page| <= |stream| && page == stream[|events0|..|events0| + |page|]
    ensures scan == ScanFrom(stream, through, |events0|, |events0| + |page|)
    ensures Taken(stream, events, bytes) && (scan.Reached? ==> |events| == scan.count)
  {
    events, bytes := events0, bytes0;
    ghost var n, end := |events0|, |events0| + |page|;
    for i := 0 to |page|
      invariant |events| == n + i && Taken(stream, events, bytes)
      invariant ScanFrom(stream, through, n, end) == ScanFrom(stream, through, n + i, end)
    {
      ScanOne(stream, through, events, page[i], end);
      var verdict := Decide(through, page[i], |events|, bytes);
      if verdict.Some? {
        return verdict.value, events, bytes;
      }
      events, bytes := events + [page[i]], bytes + page[i].bytes;
    }
    scan := Reached(|events|);
  }

  /** The checks on one event, in order; None lets it in. */
  function Decide(through: Option<int>, event: Event, count: nat, bytes: nat): Option<Scan> {
    if Past(through, event) then Some(Reached(count))
    else if count >= MAX_STREAM_READ_LIMIT then Some(Refused(EventLimit))
    else if event.sequence != count + 1 then Some(Refused(SequenceGap))
    else if bytes + event.bytes > CONTENT_BYTES then Some(Refused(EventByteLimit))
    else None
  }

  lemma ScanOne(stream: Stream, through: Option<int>, events: seq<Event>, event: Event, end: nat)
    requires |events| < end <= |stream| && events == stream[..|events|] && event == stream[|events|]
    ensures events + [event] == stream[..|events| + 1]
    ensures TotalBytes(events + [event]) == TotalBytes(events) + event.bytes
    ensures var verdict := Decide(through, event, |events|, TotalBytes(events));
      ScanFrom(stream, through, |events|, end)
      == if verdict.Some? then verdict.value else ScanFrom(stream, through, |events| + 1, end)
  {
    TakeOne(stream, |events|);
  }

  /** One round of the outer loop: reads a page, scans it and decides whether to go on. */
  method ReadPage(stream: Stream, through: Option<int>, events0: seq<Event>, bytes0: nat)
    returns (paging: Paging, events: seq<Event>, bytes: nat)
    requires Ascending(stream) && Taken(stream, events0, bytes0)
    ensures paging == OnePage(stream, through, |events0|)
    ensures Taken(stream, events, bytes)
    ensures paging.More? ==> |events| == paging.count
    ensures paging.Stop? && paging.scan.Reached? ==> |events| == paging.scan.count
  {
    var page := FetchPage(stream, events0);
    var scan: Scan;
    scan, events, bytes := ScanPage(stream, through, page, events0, bytes0);
    if scan.Refused? || |page| < PAGE || ReachesBound(events, through) {
      paging := Stop(scan);
    } else {
      paging := More(|events|);
    }
  }

  method FetchPage(stream: Stream, events: seq<Event>) returns (page: seq<Event>)
    requires Ascending(stream) && events <= stream
    ensures page == stream[|events|..PageEnd(stream, |events|)]
  {
    NextPage(stream, events);
    page := ReadFrom(stream, LastSequence(events), PAGE);
  }

  /** The answer by definition: the events up to `through`, if they are acceptable and all authorized. */
  ghost function SourceEvents(stream: Stream, through: Option<int>, authorize: Event -> bool): Result<seq<Event>> {
    match ScanFrom(stream, through, 0, |stream|)
    case Refused(refusal) => Err(refusal)
    case Reached(k) =>
      if k == 0 then Err(EmptyHistory)
      else if through.Some? && stream[k - 1].sequence != through.value then Err(SourceMissing)
      else if exists e | e in stream[..k] :: !authorize(e) then Err(Unauthorized)
      else Ok(stream[..k])
  }

  /** The stored stream as each round of paging finds it. */
  type Streams = nat -> Stream

  /** Between rounds events are only appended. */
  ghost predicate AppendOnly(streams: Streams) {
    forall r: nat :: Ascending(streams(r)) && streams(r) <= streams(r + 1)
  }

  lemma {:induction false} Grows(streams: Streams, r: nat, q: nat)
    requires AppendOnly(streams) && r <= q
    ensures streams(r) <= streams(q)
  {
    if r < q {
      Grows(streams, r, q - 1);
      assert streams(q - 1) <= streams(q - 1 + 1);
    }
  }

  /** A scan sees no further than its end. */
  lemma {:induction false} ScanExtends(stream: Stream, longer: Stream, through: Option<int>, n: nat, end: nat)
    requires stream <= longer && n <= end <= |stream|
    ensures ScanFrom(stream, through, n, end) == ScanFrom(longer, through, n, end)
    decreases end - n
  {
    if n < end {
      assert stream[..n + 1] == longer[..n + 1];
      ScanExtends(stream, longer, through, n + 1, end);
    }
  }

  /** The events taken so far are all accepted. */
  ghost predicate Accepting(stream: Stream, through: Option<int>, events: seq<Event>, bytes: nat) {
    && Taken(stream, events, bytes) && |events| <= MAX_STREAM_READ_LIMIT
    && ScanFrom(stream, through, 0, |events|) == Reached(|events|)
  }

  lemma AcceptingExtends(stream: Stream, longer: Stream, through: Option<int>, events: seq<Event>, bytes: nat)
    requires stream <= longer && Accepting(stream, through, events, bytes)
    ensures Accepting(longer, through, events, bytes)
  {
    ScanExtends(stream, longer, through, 0, |events|);
  }

  /** The events taken are all that the scan of the stream accepts. */
  ghost predicate Scanned(stream: Stream, through: Option<int>, scan: Scan, events: seq<Event>, bytes: nat) {
    && ScanFrom(stream, through, 0, |stream|) == scan
    && (scan.Reached? ==> Taken(stream, events, bytes) && |events| == scan.count)
  }

  /** One round on a stream that is not stuck: the answer, or more accepted events. */
  method PagingRound(stream: Stream, through: Option<int>, events0: seq<Event>, bytes0: nat)
    returns (paging: Paging, events: seq<Event>, bytes: nat)
    requires Ascending(stream) && !Stuck(stream, through) && Accepting(stream, through, events0, bytes0)
    ensures paging.More? ==> Accepting(stream, through, events, bytes) && |events| > |events0|
    ensures paging.Stop? ==> Scanned(stream, through, paging.scan, events, bytes)
  {
    var n := |events0|;
    RoundMeaning(stream, through, n);
    if OnePage(stream, through, n) == More(n) { ContinuesOnlyWithProgress(stream, through, n); }
    paging, events, bytes := ReadPage(stream, through, events0, bytes0);
    if paging.More? { AcceptedPrefix(stream, through, 0, |events|); }
  }

  /** The paging loop, over a stream that may grow between its rounds and never gets it stuck, ends
      with the answer by definition for the stream as its last round found it. */
  method CheckpointEvents(streams: Streams, through: Option<int>, authorize: Event -> bool)
    returns (result: Result<seq<Event>>, last: nat)
    requires AppendOnly(streams) && forall r: nat :: !Stuck(streams(r), through)
    ensures result == SourceEvents(streams(last), through, authorize)
  {
    var events: seq<Event>, bytes, round: nat := [], 0, 0;
    var paging := More(0);
    last := 0;
    while paging.More?
      invariant paging.More? ==> Accepting(streams(round), through, events, bytes)
      invariant paging.Stop? ==> Scanned(streams(last), through, paging.scan, events, bytes)
      decreases paging.More?, MAX_STREAM_READ_LIMIT - |events|
    {
      last := round;
      paging, events, bytes := PagingRound(streams(round), through, events, bytes);
      if paging.More? { AcceptingExtends(streams(round), streams(round + 1), through, events, bytes); }
      round := round + 1;
    }
    result := Conclude(streams(last), through, authorize, paging.scan, events, bytes);
  }

  /** What follows the loop: the checks on the whole answer. */
  method Conclude(ghost stream: Stream, through: Option<int>, authorize: Event -> bool, scan: Scan, events: seq<Event>, ghost bytes: nat)
    returns (result: Result<seq<Event>>)
    requires Scanned(stream, through, scan, events, bytes)
    ensures result == SourceEvents(stream, through, authorize)
  {
    if scan.Refused? {
      return Err(scan.refusal);
    }
    if events == [] {
      return Err(EmptyHistory);
    }
    if through.Some? && events[|events| - 1].sequence != through.value {
      return Err(SourceMissing);
    }
    if exists e | e in events :: !authorize(e) {
      return Err(Unauthorized);
    }
    return Ok(events);
  }

  /** On a gap-free stream that only grows, the answer is a prefix of what is stored from then on:
      the events 1 .. n, with n the bound, or all that was stored when the last page was read. */
  lemma GrowingAnswer(streams: Streams, through: Option<int>, authorize: Event -> bool, last: nat, later: nat)
    requires AppendOnly(streams) && last <= later && GapFree(streams(last)) && (through.Some? ==> through.value >= 1)
    requires SourceEvents(streams(last), through, authorize).Ok?
    ensures var value := SourceEvents(streams(last), through, authorize).value;
      && value <= streams(later) && |value| == (if through.Some? then through.value else |streams(last)|)
      && (forall i | 0 <= i < |value| :: value[i].sequence == i + 1)
  {
    GapFreeSource(streams(last), through, authorize);
    Grows(streams, last, later);
  }

  /** On a gap-free stream the answer is exactly the prefix 1 .. n, with n the bound when one is
      given, and it is given iff that prefix exists, is not empty, fits the limits and is authorized. */
  lemma GapFreeSource(stream: Stream, through: Option<int>, authorize: Event -> bool)
    requires GapFree(stream) && (through.Some? ==> through.value >= 1)
    ensures var n := if through.Some? then through.value else |stream|;
      var result := SourceEvents(stream, through, authorize);
      && (result.Ok? <==>
            1 <= n <= |stream| && n <= MAX_STREAM_READ_LIMIT && TotalBytes(stream[..n]) <= CONTENT_BYTES &&
            forall e | e in stream[..n] :: authorize(e))
      && (result.Ok? ==> result.value == stream[..n])
  {
    var n := if through.Some? then through.value else |stream|;
    var k := if n <= |stream| then n else |stream|;
    ScanGapFree(stream, through, 0, k);
  }

  lemma {:induction false} ScanGapFree(stream: Stream, through: Option<int>, i: nat, k: nat)
    requires GapFree(stream) && i <= k <= |stream|
    requires if through.Some? then through.value >= k && (through.value == k || k == |stream|) else k == |stream|
    requires i > 0 ==> i <= MAX_STREAM_READ_LIMIT && TotalBytes(stream[..i]) <= CONTENT_BYTES
    ensures var fits := k == 0 || (k <= MAX_STREAM_READ_LIMIT && TotalBytes(stream[..k]) <= CONTENT_BYTES);
      if fits then ScanFrom(stream, through, i, |stream|) == Reached(k) else ScanFrom(stream, through, i, |stream|).Refused?
    decreases k - i
  {
    if i < k {
      BytesGrow(stream, i + 1, k);
      if i < MAX_STREAM_READ_LIMIT && TotalBytes(stream[..i + 1]) <= CONTENT_BYTES {
        ScanGapFree(stream, through, i + 1, k);
      }
    }
  }

  lemma {:induction false} BytesGrow(stream: Stream, i: nat, k: nat)
    requires i <= k <= |stream|
    ensures TotalBytes(stream[..i]) <= TotalBytes(stream[..k])
    decreases k - i
  {
    if i < k {
      BytesGrow(stream, i, k - 1);
      assert stream[..k][..k - 1] == stream[..k - 1];
    }
  }

  // ---- The source ----

  /** An activity with a start and no later completion. */
  ghost predicate Unfinished(events: seq<Event>, activity: Activity) {
    exists i :: 0 <= i < |events| && events[i].kind == Kind.Starts(activity) &&
      forall j | i < j < |events| :: events[j].kind != Kind.Completes(activity)
  }

  lemma UnfinishedSnoc(events: seq<Event>, event: Event, activity: Activity)
    ensures Unfinished(events + [event], activity) <==>
      event.kind == Kind.Starts(activity) || (Unfinished(events, activity) && event.kind != Kind.Completes(activity))
  {
    var all := events + [event];
    assert forall i | 0 <= i < |events| :: all[i] == events[i];
    if event.kind == Kind.Starts(activity) {
      assert all[|events|].kind == Kind.Starts(activity);
    }
    if Unfinished(events, activity) && event.kind != Kind.Completes(activity) {
      var i :| 0 <= i < |events| && events[i].kind == Kind.Starts(activity) && forall j | i < j < |events| :: events[j].kind != Kind.Completes(activity);
      assert all[i].kind == Kind.Starts(activity) && forall j | i < j < |all| :: all[j].kind != Kind.Completes(activity);
    }
    if Unfinished(all, activity) && event.kind != Kind.Starts(activity) {
      var i :| 0 <= i < |all| && all[i].kind == Kind.Starts(activity) && forall j | i < j < |all| :: all[j].kind != Kind.Completes(activity);
      assert i < |events| && all[|events|].kind == event.kind;
      assert events[i].kind == Kind.Starts(activity) && forall j | i < j < |events| :: events[j] == all[j];
    }
  }

  /** The running set of activities holds exactly the unfinished ones. */
  method ActiveSet(events: seq<Event>) returns (active: set<Activity>)
    ensures forall a :: a in active <==> Unfinished(events, a)
  {
    active := {};
    for i := 0 to |events|
      invariant forall a :: a in active <==> Unfinished(events[..i], a)
    {
      assert events[..i + 1] == events[..i] + [events[i]];
      forall a ensures Unfinished(events[..i + 1], a) <==>
        events[i].kind == Kind.Starts(a) || (Unfinished(events[..i], a) && events[i].kind != Kind.Completes(a))
      {
        UnfinishedSnoc(events[..i], events[i], a);
      }
      match events[i].kind {
        case Starts(activity) => active := active + {activity};
        case Completes(activity) => active := active - {activity};
        case _ =>
      }
    }
    assert events[..|events|] == events;
  }

  predicate IsEligible(event: Event) {
    event.kind == History(ContentPayload)
  }

  /** History events other than checkpoints and restore points, in order. */
  function Eligible(events: seq<Event>): seq<Event> {
    if events == [] then []
    else
      var last := events[|events| - 1];
      Eligible(events[..|events| - 1]) + (if IsEligible(last) then [last] else [])
  }

  /** What the source digest covers: everything but checkpoint events. */
  function DigestInput(events: seq<Event>): seq<Event> {
    if events == [] then []
    else
      var last := events[|events| - 1];
      DigestInput(events[..|events| - 1]) + (if last.kind == History(CheckpointPayload) then [] else [last])
  }

  /** The digest covers every event except checkpoints, as often as it occurs. */
  lemma {:induction false} DigestCoversExactly(events: seq<Event>, e: Event)
    ensures multiset(DigestInput(events))[e] ==
      if e.kind == History(CheckpointPayload) then 0 else multiset(events)[e]
  {
    if events != [] {
      DigestCoversExactly(events[..|events| - 1], e);
      assert events == events[..|events| - 1] + [events[|events| - 1]];
    }
  }

  /** The eligible events are the history events that are neither checkpoints nor restore points. */
  lemma {:induction false} EligibleExactly(events: seq<Event>, e: Event)
    ensures multiset(Eligible(events))[e] ==
      if e.kind.History? && e.kind.payload != CheckpointPayload && e.kind.payload != RestorePointPayload
      then multiset(events)[e] else 0
  {
    if events != [] {
      EligibleExactly(events[..|events| - 1], e);
      assert events == events[..|events| - 1] + [events[|events| - 1]];
    }
  }

  /** Both keep the order of the events. */
  lemma {:induction false} OrderIsKept(a: seq<Event>, b: seq<Event>)
    ensures DigestInput(a + b) == DigestInput(a) + DigestInput(b)
    ensures Eligible(a + b) == Eligible(a) + Eligible(b)
  {
    if b == [] {
      assert a + b == a;
    } else {
      assert (a + b)[..|a + b| - 1] == a + b[..|b| - 1];
      OrderIsKept(a, b[..|b| - 1]);
    }
  }

  datatype Page = Page(text: string, bytes: nat)

  datatype Record = Record(event: Event, text: string)

  ghost function RecordEvents(records: seq<Record>): seq<Event> {
    seq(|records|, i requires 0 <= i < |records| => records[i].event)
  }

  /** The reader answers for one event within the bytes still allowed, or not at all. */
  type Reader = (Event, nat) -> Option<Page>

  ghost predicate Honest(reader: Reader) {
    forall e, max :: reader(e, max).Some? ==> reader(e, max).value.bytes <= max
  }

  datatype Reading = Reading(records: seq<Record>, bytes: nat)

  /** Reads the events in order, each within the bytes that those before it left; None when one
      cannot be read. */
  ghost function ReadInOrder(events: seq<Event>, reader: Reader): Option<Reading> {
    if events == [] then Some(Reading([], 0))
    else ReadNext(ReadInOrder(events[..|events| - 1], reader), events[|events| - 1], reader)
  }

  ghost function ReadNext(before: Option<Reading>, event: Event, reader: Reader): Option<Reading> {
    if before.None? || before.value.bytes > CONTENT_BYTES then None
    else
      var page := reader(event, CONTENT_BYTES - before.value.bytes);
      if page.None? then None
      else Some(Reading(before.value.records + [Record(event, page.value.text)], before.value.bytes + page.value.bytes))
  }

  /** The answer by definition, for the eligible events: the first 64 are read before the limit counts. */
  ghost function SourceRecords(eligible: seq<Event>, reader: Reader): Result<Reading> {
    match ReadInOrder(eligible[..Smaller(|eligible|, MAX_HISTORY_ITEMS)], reader)
    case None => Err(Unreadable)
    case Some(reading) =>
      if |eligible| > MAX_HISTORY_ITEMS then Err(ItemLimit)
      else if eligible == [] then Err(EmptyHistory)
      else Ok(reading)
  }

  function Smaller(a: nat, b: nat): nat { if a < b then a else b }

  /** A reading holds exactly the events read, in order, within the byte limit. */
  lemma {:induction false} ReadingHoldsEvents(events: seq<Event>, reader: Reader)
    requires Honest(reader) && ReadInOrder(events, reader).Some?
    ensures var reading := ReadInOrder(events, reader).value;
      RecordEvents(reading.records) == events && |reading.records| == |events| && reading.bytes <= CONTENT_BYTES
  {
    if events != [] {
      var init, last := events[..|events| - 1], events[|events| - 1];
      ReadingHoldsEvents(init, reader);
      var reading := ReadInOrder(events, reader).value;
      assert RecordEvents(reading.records) == RecordEvents(ReadInOrder(init, reader).value.records) + [last];
    }
  }

  /** A source is read iff there are 1 to 64 eligible events and each can be read within the bytes
      left; it then holds exactly those events, in order. */
  lemma SourceRecordsExactly(eligible: seq<Event>, reader: Reader)
    requires Honest(reader)
    ensures var result := SourceRecords(eligible, reader);
      && (result.Ok? <==> 1 <= |eligible| <= MAX_HISTORY_ITEMS && ReadInOrder(eligible, reader).Some?)
      && (result.Ok? ==> RecordEvents(result.value.records) == eligible && result.value.bytes <= CONTENT_BYTES)
  {
    if |eligible| <= MAX_HISTORY_ITEMS {
      assert eligible[..Smaller(|eligible|, MAX_HISTORY_ITEMS)] == eligible;
      if ReadInOrder(eligible, reader).Some? { ReadingHoldsEvents(eligible, reader); }
    }
  }

  /** What cannot be read stays unread, whatever follows. */
  lemma {:induction false} UnreadStays(events: seq<Event>, reader: Reader, n: nat)
    requires n <= |events| && ReadInOrder(events[..n], reader).None?
    ensures ReadInOrder(events, reader).None?
    decreases |events|
  {
    if n < |events| {
      assert events[..|events| - 1][..n] == events[..n];
      UnreadStays(events[..|events| - 1], reader, n);
    } else {
      assert events[..n] == events;
    }
  }

  /** The records hold what the first `i` events have to be read for. */
  ghost predicate ReadSoFar(events: seq<Event>, reader: Reader, i: nat, records: seq<Record>, bytes: nat)
    requires i <= |events|
  {
    && ReadInOrder(Eligible(events[..i]), reader) == Some(Reading(records, bytes))
    && |records| == |Eligible(events[..i])| <= MAX_HISTORY_ITEMS && bytes <= CONTENT_BYTES
  }

  /** Reads the eligible history and answers by definition. */
  method CollectRecords(events: seq<Event>, reader: Reader) returns (result: Result<Reading>)
    requires Honest(reader)
    ensures result == SourceRecords(Eligible(events), reader)
  {
    var records: seq<Record>, bytes: nat := [], 0;
    for i := 0 to |events|
      invariant ReadSoFar(events, reader, i, records, bytes)
    {
      EligibleTake(events, i);
      if IsEligible(events[i]) {
        var refusal: Option<Refusal>;
        refusal, records, bytes := ReadOne(events, reader, i, records, bytes, events[i]);
        if refusal.Some? {
          return Err(refusal.value);
        }
      }
    }
    AllRead(events);
    return if records == [] then Err(EmptyHistory) else Ok(Reading(records, bytes));
  }

  /** One eligible event: refused past 64 items or when it cannot be read within the bytes left. */
  method ReadOne(ghost events: seq<Event>, reader: Reader, ghost i: nat, records0: seq<Record>, bytes0: nat, event: Event)
    returns (refusal: Option<Refusal>, records: seq<Record>, bytes: nat)
    requires Honest(reader) && i < |events| && event == events[i] && IsEligible(event)
    requires ReadSoFar(events, reader, i, records0, bytes0)
    ensures refusal.Some? ==> SourceRecords(Eligible(events), reader) == Err(refusal.value)
    ensures refusal.None? ==> ReadSoFar(events, reader, i + 1, records, bytes)
  {
    records, bytes := records0, bytes0;
    EligibleTake(events, i);
    if |records| >= MAX_HISTORY_ITEMS {
      TooMany(events, reader, i);
      return Some(ItemLimit), records, bytes;
    }
    ReadSnoc(Eligible(events[..i]), event, reader);
    var page := reader(event, CONTENT_BYTES - bytes);
    if page.None? {
      UnreadableSoFar(events, reader, i + 1);
      return Some(Unreadable), records, bytes;
    }
    return None, records + [Record(event, page.value.text)], bytes + page.value.bytes;
  }

  lemma ReadSnoc(eligible: seq<Event>, event: Event, reader: Reader)
    ensures ReadInOrder(eligible + [event], reader) == ReadNext(ReadInOrder(eligible, reader), event, reader)
    ensures |eligible + [event]| == |eligible| + 1
  {
    assert (eligible + [event])[..|eligible|] == eligible;
  }

  lemma AllRead(events: seq<Event>)
    ensures events[..|events|] == events
    ensures |Eligible(events)| <= MAX_HISTORY_ITEMS ==>
      Eligible(events)[..Smaller(|Eligible(events)|, MAX_HISTORY_ITEMS)] == Eligible(events)
  {
  }

  lemma TooMany(events: seq<Event>, reader: Reader, i: nat)
    requires i < |events| && IsEligible(events[i]) && |Eligible(events[..i])| == MAX_HISTORY_ITEMS
    requires ReadInOrder(Eligible(events[..i]), reader).Some?
    ensures SourceRecords(Eligible(events), reader) == Err(ItemLimit)
  {
    EligibleTake(events, i);
    EligiblePrefix(events, i);
    EligiblePrefix(events, i + 1);
    assert Eligible(events)[..MAX_HISTORY_ITEMS] == Eligible(events[..i]);
  }

  lemma UnreadableSoFar(events: seq<Event>, reader: Reader, i: nat)
    requires i <= |events| && |Eligible(events[..i])| <= MAX_HISTORY_ITEMS
    requires ReadInOrder(Eligible(events[..i]), reader).None?
    ensures SourceRecords(Eligible(events), reader) == Err(Unreadable)
  {
    var all, so := Eligible(events), Eligible(events[..i]);
    EligiblePrefix(events, i);
    var first := all[..Smaller(|all|, MAX_HISTORY_ITEMS)];
    assert first[..|so|] == so;
    UnreadStays(first, reader, |so|);
  }

  lemma EligibleTake(events: seq<Event>, i: nat)
    requires i < |events|
    ensures Eligible(events[..i + 1])
      == if IsEligible(events[i]) then Eligible(events[..i]) + [events[i]] else Eligible(events[..i])
  {
    assert events[..i + 1][..i] == events[..i];
  }

  lemma {:induction false} EligiblePrefix(events: seq<Event>, i: nat)
    requires i <= |events|
    ensures Eligible(events[..i]) <= Eligible(events)
    decreases |events| - i
  {
    if i < |events| {
      EligibleTake(events, i);
      EligiblePrefix(events, i + 1);
    } else {
      assert events[..i] == events;
    }
  }

  datatype Source = Source(events: seq<Event>, records: seq<Record>, head: nat, bytes: nat, digestInput: seq<Event>)

  /** The checkpoint source: refused as busy iff something is unfinished, and otherwise exactly
      what can be read of the eligible history of exactly the requested events. */
  method BuildSource(streams: Streams, through: Option<int>, authorize: Event -> bool, reader: Reader)
    returns (result: Result<Source>, last: nat)
    requires AppendOnly(streams) && (forall r: nat :: !Stuck(streams(r), through)) && Honest(reader)
    ensures var loaded := SourceEvents(streams(last), through, authorize);
      && (loaded.Err? ==> result == Err(loaded.refusal))
      && (loaded.Ok? ==> (result == Err(Busy) <==> exists a :: Unfinished(loaded.value, a)))
      && (loaded.Ok? && result != Err(Busy) ==>
            var read := SourceRecords(Eligible(loaded.value), reader);
            result == if read.Err? then Err(read.refusal)
                      else Ok(Source(loaded.value, read.value.records, loaded.value[|loaded.value| - 1].sequence,
                                     read.value.bytes, DigestInput(loaded.value))))
  {
    var loaded;
    loaded, last := CheckpointEvents(streams, through, authorize);
    if loaded.Err? {
      return Err(loaded.refusal), last;
    }
    var events := loaded.value;
    var active := ActiveSet(events);
    if active != {} {
      var a :| a in active;
      assert Unfinished(events, a);
      return Err(Busy), last;
    }
    assert forall a :: a !in active;
    var read := CollectRecords(events, reader);
    if read.Err? {
      return Err(read.refusal), last;
    }
    return Ok(Source(events, read.value.records, events[|events| - 1].sequence, read.value.bytes, DigestInput(events))), last;
  }

  /** Appending a checkpoint event changes neither the digest input, nor the eligible history, nor
      what is unfinished. */
  lemma CheckpointsAreInvisible(events: seq<Event>, checkpoint: Event)
    requires checkpoint.kind == History(CheckpointPayload)
    ensures DigestInput(events + [checkpoint]) == DigestInput(events)
    ensures Eligible(events + [checkpoint]) == Eligible(events)
    ensures forall a :: Unfinished(events + [checkpoint], a) <==> Unfinished(events, a)
  {
    assert (events + [checkpoint])[..|events|] == events;
    forall a ensures Unfinished(events + [checkpoint], a) <==> Unfinished(events, a) {
      UnfinishedSnoc(events, checkpoint, a);
    }
  }
}
