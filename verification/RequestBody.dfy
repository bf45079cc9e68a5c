/** Reading a request body ahead for plugins, and the request body filter that releases it. */
module RequestBody {
  import opened Wrappers
  import opened SpillableBuffers
  import opened BodyStream

  /** Both the size of the fixed retry buffer and the tail kept for it. */
  const RETRY_TRIGGER_BYTES := 64 * 1024

  // ---------------------------------------------------------------- the session

  function Concat(chunks: seq<Bytes>): Bytes {
    if chunks == [] then [] else Concat(chunks[..|chunks| - 1]) + chunks[|chunks| - 1]
  }

  /** The proxy's fixed-size retry buffer; once a chunk does not fit it is truncated for good. */
  datatype Retry = Retry(bytes: Bytes, truncated: bool)

  function Remember(r: Retry, chunk: Bytes): Retry {
    if r.truncated || |r.bytes| + |chunk| > RETRY_TRIGGER_BYTES then r.(truncated := true)
    else r.(bytes := r.bytes + chunk)
  }

  function Captured(chunks: seq<Bytes>): Retry {
    if chunks == [] then Retry([], false) else Remember(Captured(chunks[..|chunks| - 1]), chunks[|chunks| - 1])
  }

  /** A downstream session: the chunks still to come, and the retry buffer if it is on. */
  class Session {
    var incoming: seq<Bytes>
    var retry: Option<Retry>

    constructor (chunks: seq<Bytes>)
      ensures incoming == chunks && retry == None
    {
      incoming, retry := chunks, None;
    }

    method EnableRetryBuffering()
      modifies this
      ensures retry == Some(Retry([], false)) && incoming == old(incoming)
    {
      retry := Some(Retry([], false));
    }

    method ReadRequestBody() returns (chunk: Option<Bytes>)
      modifies this
      ensures old(incoming) == [] ==> chunk == None && incoming == [] && retry == old(retry)
      ensures old(incoming) != [] ==>
                && chunk == Some(old(incoming)[0]) && incoming == old(incoming)[1..]
                && retry == if old(retry).Some? then Some(Remember(old(retry).value, chunk.value)) else None
    {
      if incoming == [] {
        return None;
      }
      chunk := Some(incoming[0]);
      if retry.Some? {
        retry := Some(Remember(retry.value, incoming[0]));
      }
      incoming := incoming[1..];
    }
  }

  // ---------------------------------------------------------------- when capture starts

  /** What the declared length says is still to come behind the first k chunks. */
  function Remaining(chunks: seq<Bytes>, length: nat, k: nat): nat
    requires k <= |chunks|
  {
    var received := |Concat(chunks[..k])|;
    if length >= received then length - received else 0
  }

  /** k is the first point at which no more than the retry buffer's size remains. */
  ghost predicate CaptureStart(chunks: seq<Bytes>, length: nat, k: nat) {
    && k <= |chunks| && Remaining(chunks, length, k) <= RETRY_TRIGGER_BYTES
    && forall j :: 0 <= j < k ==> Remaining(chunks, length, j) > RETRY_TRIGGER_BYTES
  }

  ghost predicate NeverStarts(chunks: seq<Bytes>, length: nat) {
    forall k :: 0 <= k <= |chunks| ==> Remaining(chunks, length, k) > RETRY_TRIGGER_BYTES
  }

  ghost predicate RetryIs(chunks: seq<Bytes>, contentLength: Option<nat>, retry: Option<Retry>) {
    match contentLength
    case None => retry == Some(Captured(chunks))
    case Some(length) =>
      || (NeverStarts(chunks, length) && retry == None)
      || exists k: nat :: CaptureStart(chunks, length, k) && retry == Some(Captured(chunks[k..]))
  }

  lemma ConcatStep(chunks: seq<Bytes>, k: nat)
    requires k < |chunks|
    ensures Concat(chunks[..k + 1]) == Concat(chunks[..k]) + chunks[k]
  {
    assert chunks[..k + 1][..k] == chunks[..k];
  }

  lemma CapturedStep(chunks: seq<Bytes>, k: nat, i: nat)
    requires k <= i < |chunks|
    ensures Captured(chunks[k..i + 1]) == Remember(Captured(chunks[k..i]), chunks[i])
  {
    assert chunks[k..i + 1][..i - k] == chunks[k..i];
  }

  lemma {:induction false} ConcatMonotone(chunks: seq<Bytes>, i: nat, j: nat)
    requires i <= j <= |chunks|
    ensures |Concat(chunks[..i])| <= |Concat(chunks[..j])|
  {
    if i < j {
      ConcatMonotone(chunks, i, j - 1);
      ConcatStep(chunks, j - 1);
    }
  }

  lemma {:induction false} ConcatSplit(chunks: seq<Bytes>, k: nat)
    requires k <= |chunks|
    ensures Concat(chunks) == Concat(chunks[..k]) + Concat(chunks[k..])
  {
    if k == |chunks| {
      assert chunks[..k] == chunks && chunks[k..] == [];
    } else {
      var front := chunks[..|chunks| - 1];
      ConcatSplit(front, k);
      assert front[..k] == chunks[..k] && front[k..] == chunks[k..][..|chunks| - 1 - k];
    }
  }

  /** What fits into the retry buffer is captured whole. */
  lemma {:induction false} CapturesWhole(chunks: seq<Bytes>)
    requires |Concat(chunks)| <= RETRY_TRIGGER_BYTES
    ensures Captured(chunks) == Retry(Concat(chunks), false)
  {
    if chunks != [] {
      CapturesWhole(chunks[..|chunks| - 1]);
    }
  }

  /** The retry buffer is truncated exactly by more than 64 KiB, however they are cut into chunks. */
  lemma {:induction false} TruncatedExactlyWhen(chunks: seq<Bytes>)
    ensures Captured(chunks).truncated <==> |Concat(chunks)| > 65536
    ensures !Captured(chunks).truncated ==> Captured(chunks).bytes == Concat(chunks)
  {
    if chunks != [] {
      TruncatedExactlyWhen(chunks[..|chunks| - 1]);
    }
  }

  ghost predicate LastNonEmpty(chunks: seq<Bytes>, i: nat) {
    i < |chunks| && chunks[i] != [] && forall j :: i < j < |chunks| ==> chunks[j] == []
  }

  lemma {:induction false} EmptyTail(chunks: seq<Bytes>, i: nat, j: nat)
    requires LastNonEmpty(chunks, i) && i < j <= |chunks|
    ensures |Concat(chunks[..j])| == |Concat(chunks[..i])| + |chunks[i]|
  {
    ConcatStep(chunks, j - 1);
    if i + 1 < j {
      EmptyTail(chunks, i, j - 1);
    }
  }

  /** With a truthful, positive Content-Length, what is captured is the untruncated tail of the
      body, at most 64 KiB of it; and that tail is not empty, so that the proxy loop will run the
      body filter, exactly when the last non-empty chunk is at most 64 KiB. */
  lemma CaptureIsUsefulExactlyWhen(chunks: seq<Bytes>, k: nat, i: nat)
    requires CaptureStart(chunks, |Concat(chunks)|, k) && LastNonEmpty(chunks, i)
    ensures var tail := Captured(chunks[k..]);
            && !tail.truncated && Concat(chunks) == Concat(chunks[..k]) + tail.bytes
            && |tail.bytes| <= 65536
            && (tail.bytes != [] <==> |chunks[i]| <= 65536)
  {
    var n := |chunks|;
    assert chunks[..n] == chunks;
    ConcatMonotone(chunks, k, n);
    ConcatSplit(chunks, k);
    CapturesWhole(chunks[k..]);
    EmptyTail(chunks, i, n);
    if k <= i {
      ConcatMonotone(chunks, k, i);
    } else {
      EmptyTail(chunks, i, k);
      assert Remaining(chunks, |Concat(chunks)|, i) > RETRY_TRIGGER_BYTES;
    }
  }

  /** In particular, chunks of at most 64 KiB switch capture on while between 1 byte and 64 KiB remain. */
  lemma SmallChunksCapture(chunks: seq<Bytes>) returns (k: nat)
    requires |Concat(chunks)| > 0 && forall j :: 0 <= j < |chunks| ==> |chunks[j]| <= 65536
    ensures CaptureStart(chunks, |Concat(chunks)|, k)
    ensures 1 <= Remaining(chunks, |Concat(chunks)|, k) <= 65536
    ensures var tail := Captured(chunks[k..]);
            !tail.truncated && tail.bytes != [] && Concat(chunks) == Concat(chunks[..k]) + tail.bytes
  {
    assert chunks[..|chunks|] == chunks;
    k := FirstStart(chunks, |Concat(chunks)|, 0);
    var i := FindLastNonEmpty(chunks);
    CaptureIsUsefulExactlyWhen(chunks, k, i);
  }

  lemma FirstStart(chunks: seq<Bytes>, length: nat, from: nat) returns (k: nat)
    requires from <= |chunks| && Remaining(chunks, length, |chunks|) <= RETRY_TRIGGER_BYTES
    requires forall j :: 0 <= j < from ==> Remaining(chunks, length, j) > RETRY_TRIGGER_BYTES
    ensures CaptureStart(chunks, length, k)
    decreases |chunks| - from
  {
    if Remaining(chunks, length, from) <= RETRY_TRIGGER_BYTES {
      k := from;
    } else {
      k := FirstStart(chunks, length, from + 1);
    }
  }

  lemma FindLastNonEmpty(chunks: seq<Bytes>) returns (i: nat)
    requires |Concat(chunks)| > 0
    ensures LastNonEmpty(chunks, i)
  {
    i := |chunks| - 1;
    if chunks[i] == [] {
      i := FindLastNonEmpty(chunks[..i]);
    }
  }

  // ---------------------------------------------------------------- the filter

  datatype Pending = Pending(buffer: Option<State>, stamped: bool)
  datatype Reply = Pass(body: Option<Bytes>) | TimedOut

  function Step(override_: Option<Bytes>, buffering: bool, p: Pending, c: Chunk): (Reply, Pending) {
    if override_.Some? then (Pass(if c.last then override_ else None), p)
    else if p.buffer.Some? then
      if c.last then (Pass(Some(Finished(p.buffer.value, c.back))), p.(buffer := None)) else (Pass(None), p)
    else if !buffering then (Pass(c.body), p)
    else if p.stamped && c.late then (TimedOut, p)
    else if c.body.None? then (Pass(None), p)
    else
      var now := Extended(Memory([]), DEFAULT_THRESHOLD, c.body.value, c.disk);
      if c.last then (Pass(Some(Finished(now, c.back))), Pending(None, true))
      else (Pass(None), Pending(Some(now), true))
  }

  datatype Preload = NoBody | Preloaded | CannotReplay

  class RequestFilter {
    const buffering: bool
    var upstreamBody: Option<Bytes>
    var buffer: Option<SpillableBuffer>
    var stamped: bool
    /** The body as plugins see it; text decoding is not modelled. */
    var requestBody: Option<Bytes>

    ghost predicate Valid()
      reads this, Owned()
    {
      buffer.Some? ==> buffer.value.threshold == DEFAULT_THRESHOLD
    }

    ghost function Owned(): set<object>
      reads this
    {
      if buffer.Some? then {buffer.value} else {}
    }

    ghost function View(): Pending
      reads this, Owned()
    {
      Pending(if buffer.Some? then Some(buffer.value.state) else None, stamped)
    }

    constructor (buffering: bool)
      ensures Valid() && View() == Pending(None, false) && Owned() == {}
      ensures this.buffering == buffering && upstreamBody == None && requestBody == None
    {
      this.buffering := buffering;
      upstreamBody, buffer, stamped, requestBody := None, None, false, None;
    }

    method Filter(c: Chunk) returns (reply: Reply)
      requires Valid()
      modifies this, Owned()
      ensures Valid() && fresh(Owned() - old(Owned())) && upstreamBody == old(upstreamBody)
      ensures (reply, View()) == Step(upstreamBody, buffering, old(View()), c)
    {
      if upstreamBody.Some? {
        return Pass(if c.last then upstreamBody else None);
      }
      if buffer.Some? {
        if c.last {
          var bytes := buffer.value.Finish(c.back);
          buffer := None;
          return Pass(Some(bytes));
        }
        return Pass(None);
      }
      if !buffering {
        return Pass(c.body);
      }
      if stamped && c.late {
        return TimedOut;
      }
      reply := Pass(None);
      if c.body.Some? {
        stamped := true;
        var b := new SpillableBuffer.WithThreshold(DEFAULT_THRESHOLD);
        b.Extend(c.body.value, c.disk);
        buffer := Some(b);
      }
      if c.last && buffer.Some? {
        var bytes := buffer.value.Finish(c.back);
        buffer := None;
        reply := Pass(Some(bytes));
      }
    }

    /** Reads the whole body ahead and keeps it for the filter, switching the retry buffer on late
        enough that it is not truncated. Chunk i is written with disks(i). */
    method PreloadBody(session: Session, contentLength: Option<nat>, transferEncoding: bool,
                       disks: nat -> Disk, back: ReadBack, again: Disk)
      returns (result: Preload)
      requires Valid() && session.retry == None
      modifies this, Owned(), session
      ensures Valid() && fresh(Owned() - old(Owned())) && upstreamBody == old(upstreamBody) && stamped == old(stamped)
      ensures result == NoBody <==> contentLength == Some(0) || (contentLength == None && !transferEncoding)
      ensures result == NoBody ==> View() == old(View()) && session.retry == None && session.incoming == old(session.incoming)
      ensures result != NoBody ==> session.incoming == [] && RetryIs(old(session.incoming), contentLength, session.retry)
      ensures result == CannotReplay <==> contentLength == None && transferEncoding && Captured(old(session.incoming)).truncated
      ensures result == CannotReplay <==> contentLength == None && transferEncoding && |Concat(old(session.incoming))| > 65536
      ensures result == Preloaded ==>
                var was := if old(buffer).Some? then old(View()).buffer.value else Memory([]);
                var whole := Finished(Feed(was, DEFAULT_THRESHOLD, Writes(old(session.incoming), disks)), back);
                requestBody == Some(whole) && View().buffer == Some(Extended(Memory([]), DEFAULT_THRESHOLD, whole, again))
    {
      if contentLength == Some(0) || (contentLength == None && !transferEncoding) {
        return NoBody;
      }
      var b: SpillableBuffer;
      if buffer.Some? {
        b := buffer.value;
      } else {
        b := new SpillableBuffer.WithThreshold(DEFAULT_THRESHOLD);
      }
      buffer := None;
      TruncatedExactlyWhen(session.incoming);
      ReadAll(session, contentLength, b, disks);
      if contentLength.None? && session.retry.value.truncated {
        return CannotReplay;
      }
      var whole := b.Finish(back);
      requestBody := Some(whole);
      var retained := new SpillableBuffer.WithThreshold(DEFAULT_THRESHOLD);
      retained.Extend(whole, again);
      buffer := Some(retained);
      return Preloaded;
    }
  }

  function Writes(chunks: seq<Bytes>, disks: nat -> Disk): (r: seq<Write>)
    ensures |r| == |chunks|
  {
    seq(|chunks|, i requires 0 <= i < |chunks| => Write(chunks[i], disks(i)))
  }

  lemma FeedStep(s: State, chunks: seq<Bytes>, disks: nat -> Disk, i: nat)
    requires i < |chunks|
    ensures Feed(s, DEFAULT_THRESHOLD, Writes(chunks[..i + 1], disks))
            == Extended(Feed(s, DEFAULT_THRESHOLD, Writes(chunks[..i], disks)), DEFAULT_THRESHOLD, chunks[i], disks(i))
  {
    var more := Writes(chunks[..i + 1], disks);
    assert more[..i] == Writes(chunks[..i], disks) && more[i] == Write(chunks[i], disks(i));
  }

  /** The retry buffer while chunks are being read: on since start, or not on yet. */
  ghost predicate Capturing(chunks: seq<Bytes>, contentLength: Option<nat>, i: nat, on: bool, start: nat, retry: Option<Retry>) {
    && i <= |chunks|
    && match contentLength
       case None => on && start == 0 && retry == Some(Captured(chunks[0..i]))
       case Some(length) =>
         if on then start <= i && CaptureStart(chunks, length, start) && retry == Some(Captured(chunks[start..i]))
         else retry == None && forall j :: 0 <= j < i ==> Remaining(chunks, length, j) > RETRY_TRIGGER_BYTES
  }

  lemma CapturingStep(chunks: seq<Bytes>, contentLength: Option<nat>, i: nat, on: bool, start: nat, retry: Option<Retry>)
    requires i < |chunks| && Capturing(chunks, contentLength, i, on, start, retry)
    requires !on ==> contentLength.Some? && Remaining(chunks, contentLength.value, i) > RETRY_TRIGGER_BYTES
    ensures Capturing(chunks, contentLength, i + 1, on, start,
                      if retry.Some? then Some(Remember(retry.value, chunks[i])) else None)
  {
    if on {
      CapturedStep(chunks, start, i);
    }
  }

  /** At the first point with no more than the trigger to come, capture may start from nothing. */
  lemma CapturingStarts(chunks: seq<Bytes>, length: nat, i: nat)
    requires i <= |chunks| && Remaining(chunks, length, i) <= RETRY_TRIGGER_BYTES
    requires forall j :: 0 <= j < i ==> Remaining(chunks, length, j) > RETRY_TRIGGER_BYTES
    ensures Capturing(chunks, Some(length), i, true, i, Some(Retry([], false)))
  {
    assert chunks[i..i] == [];
  }

  /** What one more chunk does to the retry buffer, the count and the body buffer. */
  lemma ReadStep(chunks: seq<Bytes>, contentLength: Option<nat>, i: nat, on: bool, start: nat, retry: Option<Retry>, s: State, disks: nat -> Disk)
    requires i < |chunks| && Capturing(chunks, contentLength, i, on, start, retry)
    requires !on ==> contentLength.Some? && Remaining(chunks, contentLength.value, i) > RETRY_TRIGGER_BYTES
    ensures Capturing(chunks, contentLength, i + 1, on, start, if retry.Some? then Some(Remember(retry.value, chunks[i])) else None)
    ensures |Concat(chunks[..i + 1])| == |Concat(chunks[..i])| + |chunks[i]|
    ensures Feed(s, DEFAULT_THRESHOLD, Writes(chunks[..i + 1], disks))
            == Extended(Feed(s, DEFAULT_THRESHOLD, Writes(chunks[..i], disks)), DEFAULT_THRESHOLD, chunks[i], disks(i))
  {
    CapturingStep(chunks, contentLength, i, on, start, retry);
    ConcatStep(chunks, i);
    FeedStep(s, chunks, disks, i);
  }

  lemma CapturingDone(chunks: seq<Bytes>, contentLength: Option<nat>, on: bool, start: nat, retry: Option<Retry>)
    requires Capturing(chunks, contentLength, |chunks|, on, start, retry)
    requires !on ==> contentLength.Some? && Remaining(chunks, contentLength.value, |chunks|) > RETRY_TRIGGER_BYTES
    ensures RetryIs(chunks, contentLength, retry)
  {
    assert chunks[0..|chunks|] == chunks;
    if on && contentLength.Some? {
      assert chunks[start..|chunks|] == chunks[start..];
    }
  }

  method ReadAll(session: Session, contentLength: Option<nat>, b: SpillableBuffer, disks: nat -> Disk)
    requires session.retry == None && b.threshold == DEFAULT_THRESHOLD
    modifies session, b
    ensures session.incoming == [] && RetryIs(old(session.incoming), contentLength, session.retry)
    ensures b.state == Feed(old(b.state), DEFAULT_THRESHOLD, Writes(old(session.incoming), disks))
  {
    ghost var chunks := session.incoming;
    var bytesRead, i, on := 0, 0, false;
    ghost var start := 0;
    if contentLength.None? {
      session.EnableRetryBuffering();
      on := true;
    }
    while true
      invariant i <= |chunks| && session.incoming == chunks[i..] && b.threshold == DEFAULT_THRESHOLD
      invariant bytesRead == |Concat(chunks[..i])|
      invariant b.state == Feed(old(b.state), DEFAULT_THRESHOLD, Writes(chunks[..i], disks))
      invariant Capturing(chunks, contentLength, i, on, start, session.retry)
      invariant contentLength.None? ==> on
      decreases |chunks| - i
    {
      if !on && contentLength.Some? && (if contentLength.value >= bytesRead then contentLength.value - bytesRead else 0) <= RETRY_TRIGGER_BYTES {
        CapturingStarts(chunks, contentLength.value, i);
        session.EnableRetryBuffering();
        on, start := true, i;
      }
      assert !on ==> contentLength.Some? && Remaining(chunks, contentLength.value, i) > RETRY_TRIGGER_BYTES;
      if i < |chunks| {
        ReadStep(chunks, contentLength, i, on, start, session.retry, old(b.state), disks);
      }
      var chunk := session.ReadRequestBody();
      if chunk.None? {
        assert i == |chunks|;
        break;
      }
      bytesRead := bytesRead + |chunk.value|;
      b.Extend(chunk.value, disks(i));
      i := i + 1;
    }
    assert chunks[..i] == chunks;
    CapturingDone(chunks, contentLength, on, start, session.retry);
  }

  // ---------------------------------------------------------------- whole streams

  /** All bytes handed on over a stream, up to a timeout. */
  function Emitted(override_: Option<Bytes>, buffering: bool, p: Pending, chunks: seq<Chunk>): Bytes
    decreases |chunks|
  {
    if chunks == [] then []
    else
      match Step(override_, buffering, p, chunks[0])
      case (TimedOut, _) => []
      case (Pass(body), next) => Payload(body) + Emitted(override_, buffering, next, chunks[1..])
  }

  predicate EverTimesOut(override_: Option<Bytes>, buffering: bool, p: Pending, chunks: seq<Chunk>)
    decreases |chunks|
  {
    chunks != [] &&
    match Step(override_, buffering, p, chunks[0])
    case (TimedOut, _) => true
    case (Pass(_), next) => EverTimesOut(override_, buffering, next, chunks[1..])
  }

  /** Some chunk comes late, and none before it carries a body or is late. */
  ghost predicate LateFirst(chunks: seq<Chunk>) {
    exists i: nat :: LateAt(chunks, i)
  }

  ghost predicate LateAt(chunks: seq<Chunk>, i: nat) {
    i < |chunks| && chunks[i].late && forall j :: 0 <= j < i ==> !chunks[j].late && chunks[j].body == None
  }

  /** A stream times out exactly when the filter buffers, was stamped by an earlier stream that left
      nothing in the buffer, and the first call that is late or carries a body is late. */
  lemma {:induction false} TimesOutExactlyWhen(override_: Option<Bytes>, buffering: bool, p: Pending, chunks: seq<Chunk>)
    requires OneStream(chunks)
    ensures EverTimesOut(override_, buffering, p, chunks) <==>
              override_.None? && buffering && p.buffer.None? && p.stamped && LateFirst(chunks)
    decreases |chunks|
  {
    OneStreamTail(chunks);
    var rest := chunks[1..];
    if |chunks| > 1 {
      var (_, next) := Step(override_, buffering, p, chunks[0]);
      TimesOutExactlyWhen(override_, buffering, next, rest);
    }
    LateTail(chunks, rest);
  }

  lemma LateTail(chunks: seq<Chunk>, rest: seq<Chunk>)
    requires chunks != [] && rest == chunks[1..]
    ensures LateFirst(chunks) <==> chunks[0].late || (chunks[0].body == None && LateFirst(rest))
  {
    if chunks[0].late {
      assert LateAt(chunks, 0);
    } else if chunks[0].body == None && LateFirst(rest) {
      var i: nat :| LateAt(rest, i);
      forall j | 0 <= j < i + 1
        ensures !chunks[j].late && chunks[j].body == None
      {
        assert j > 0 ==> chunks[j] == rest[j - 1];
      }
      assert LateAt(chunks, i + 1);
    }
    if LateFirst(chunks) && !chunks[0].late {
      var i: nat :| LateAt(chunks, i);
      forall j | 0 <= j < i - 1
        ensures !rest[j].late && rest[j].body == None
      {
        assert rest[j] == chunks[j + 1];
      }
      assert rest[i - 1] == chunks[i] && LateAt(rest, i - 1);
    }
  }

  /** So from a fresh filter the interval timeout is unreachable: a chunk is stamped only when it is
      buffered, and while something is buffered the release branch is taken. */
  lemma NeverTimesOut(override_: Option<Bytes>, buffering: bool, p: Pending, chunks: seq<Chunk>)
    requires OneStream(chunks) && (override_.Some? || !buffering || p.buffer.Some? || !p.stamped)
    ensures !EverTimesOut(override_, buffering, p, chunks)
  {
    TimesOutExactlyWhen(override_, buffering, p, chunks);
  }

  /** A plugin's replacement body is sent, once, whatever was received. */
  lemma {:induction false} OverrideIsSent(body: Bytes, buffering: bool, p: Pending, chunks: seq<Chunk>)
    requires OneStream(chunks)
    ensures Emitted(Some(body), buffering, p, chunks) == body
    decreases |chunks|
  {
    OneStreamTail(chunks);
    if |chunks| > 1 {
      OverrideIsSent(body, buffering, p, chunks[1..]);
    } else {
      assert chunks[1..] == [];
    }
  }

  /** A body already in the buffer is released at the end, and the chunks of the stream are ignored. */
  lemma {:induction false} BufferIsReleased(s: State, buffering: bool, stamped: bool, chunks: seq<Chunk>)
    requires OneStream(chunks)
    ensures Emitted(None, buffering, Pending(Some(s), stamped), chunks) == Finished(s, chunks[|chunks| - 1].back)
    decreases |chunks|
  {
    OneStreamTail(chunks);
    if |chunks| > 1 {
      BufferIsReleased(s, buffering, stamped, chunks[1..]);
    } else {
      assert chunks[1..] == [];
    }
  }

  lemma {:induction false} WritesData(chunks: seq<Bytes>, disks: nat -> Disk)
    ensures Data(Writes(chunks, disks)) == Concat(chunks)
  {
    if chunks != [] {
      var front := chunks[..|chunks| - 1];
      WritesData(front, disks);
      assert Writes(chunks, disks)[..|front|] == Writes(front, disks);
    }
  }

  /** What was read ahead is what goes upstream, unless a temporary file fails after use began. */
  lemma PreloadedBodyArrives(received: seq<Bytes>, disks: nat -> Disk, back: ReadBack, again: Disk, buffering: bool, stamped: bool, chunks: seq<Chunk>)
    requires OneStream(chunks)
    requires var read := Feed(Memory([]), DEFAULT_THRESHOLD, Writes(received, disks));
             && !SomeLoss(Memory([]), DEFAULT_THRESHOLD, Writes(received, disks)) && ReadsBack(read, back)
             && ReadsBack(Extended(Memory([]), DEFAULT_THRESHOLD, Finished(read, back), again), chunks[|chunks| - 1].back)
    ensures var whole := Finished(Feed(Memory([]), DEFAULT_THRESHOLD, Writes(received, disks)), back);
            Emitted(None, buffering, Pending(Some(Extended(Memory([]), DEFAULT_THRESHOLD, whole, again)), stamped), chunks)
            == Concat(received)
  {
    var writes := Writes(received, disks);
    HoldsAllExactlyWhen(Memory([]), DEFAULT_THRESHOLD, writes);
    WritesData(received, disks);
    var whole := Finished(Feed(Memory([]), DEFAULT_THRESHOLD, writes), back);
    assert whole == Concat(received);
    BufferIsReleased(Extended(Memory([]), DEFAULT_THRESHOLD, whole, again), buffering, stamped, chunks);
  }

  /** A body of up to 10 MiB that was read ahead stays in memory, and with a working disk no larger one does. */
  lemma SmallBodiesStayInMemory(whole: Bytes, again: Disk)
    requires again.created && again.first.ok && again.second.ok
    ensures Extended(Memory([]), DEFAULT_THRESHOLD, whole, again).Memory? <==> |whole| <= 10485760
  {
  }

  /** Without buffering the chunks pass through. */
  lemma {:induction false} StreamsAll(stamped: bool, chunks: seq<Chunk>)
    ensures Emitted(None, false, Pending(None, stamped), chunks) == Received(chunks)
    decreases |chunks|
  {
    if chunks != [] {
      StreamsAll(stamped, chunks[1..]);
    }
  }

  ghost predicate FirstBody(chunks: seq<Chunk>, i: nat) {
    i < |chunks| && chunks[i].body.Some? && forall j :: 0 <= j < i ==> chunks[j].body == None
  }

  lemma FirstBodyTail(chunks: seq<Chunk>, i: nat)
    requires FirstBody(chunks, i) && i > 0
    ensures FirstBody(chunks[1..], i - 1)
  {
    var rest := chunks[1..];
    assert rest[i - 1] == chunks[i];
    forall j | 0 <= j < i - 1
      ensures rest[j].body == None
    {
      assert rest[j] == chunks[j + 1];
    }
  }

  /** Buffering a body that was not read ahead: the first chunk creates the buffer, every later call
      then takes the release branch, and its chunk is dropped. Only the first chunk goes upstream,
      so the body survives exactly when nothing but empty chunks follow it. */
  lemma {:induction false} FilterConservesExactlyWhen(chunks: seq<Chunk>, i: nat)
    requires OneStream(chunks) && FirstBody(chunks, i)
    requires var c := chunks[|chunks| - 1]; c.back.sought && c.back.read.ok
    ensures Emitted(None, true, Pending(None, false), chunks) == chunks[i].body.value
    ensures Emitted(None, true, Pending(None, false), chunks) == Received(chunks) <==> Received(chunks[i + 1..]) == []
    decreases |chunks|
  {
    OneStreamTail(chunks);
    if i > 0 {
      FirstBodyTail(chunks, i);
      FilterConservesExactlyWhen(chunks[1..], i - 1);
      assert chunks[1..][i..] == chunks[i + 1..];
    } else {
      FirstChunkOnly(chunks);
    }
  }

  lemma FirstChunkOnly(chunks: seq<Chunk>)
    requires OneStream(chunks) && chunks[0].body.Some?
    requires var c := chunks[|chunks| - 1]; c.back.sought && c.back.read.ok
    ensures Emitted(None, true, Pending(None, false), chunks) == chunks[0].body.value
    ensures Received(chunks) == chunks[0].body.value + Received(chunks[1..])
  {
    OneStreamTail(chunks);
    var c := chunks[0];
    var now := Extended(Memory([]), DEFAULT_THRESHOLD, c.body.value, c.disk);
    assert Step(None, true, Pending(None, false), c)
        == if c.last then (Pass(Some(Finished(now, c.back))), Pending(None, true)) else (Pass(None), Pending(Some(now), true));
    if |chunks| > 1 {
      BufferIsReleased(now, true, true, chunks[1..]);
    } else {
      assert chunks[1..] == [];
    }
  }
}
