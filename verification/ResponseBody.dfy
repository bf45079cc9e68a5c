/** The response body filter: pass chunks through, or hold them all and release them at the end. */
module ResponseBody {
  import opened Wrappers
  import opened SpillableBuffers
  import opened BodyStream

  /** gRPC never buffers; otherwise the route decides, by default yes, and a plugin can insist. */
  function Buffering(grpc: bool, routeSetting: Option<bool>, pluginInsists: bool): bool {
    !grpc && ((routeSetting.Some? ==> routeSetting.value) || pluginInsists)
  }

  function Held(buffer: Option<State>): State {
    if buffer.Some? then buffer.value else Memory([])
  }

  function Buffered(buffer: Option<State>, threshold: nat, c: Chunk): Option<State> {
    if c.body.Some? then Some(Extended(Held(buffer), threshold, c.body.value, c.disk)) else buffer
  }

  /** What one call hands on, and the buffer it leaves. */
  function Step(buffering: bool, buffer: Option<State>, threshold: nat, c: Chunk): (Option<Bytes>, Option<State>) {
    if !buffering then (c.body, buffer)
    else
      var now := Buffered(buffer, threshold, c);
      if c.last && now.Some? then (Some(Finished(now.value, c.back)), None) else (None, now)
  }

  class ResponseFilter {
    const buffering: bool
    const threshold: nat
    var buffer: Option<SpillableBuffer>
    /** The whole body, for plugins to read; text decoding is not modelled. */
    var serviceResponseBody: Option<Bytes>

    ghost predicate Valid()
      reads this, Owned()
    {
      buffer.Some? ==> buffer.value.threshold == threshold
    }

    ghost function Owned(): set<object>
      reads this
    {
      if buffer.Some? then {buffer.value} else {}
    }

    ghost function View(): Option<State>
      reads this, Owned()
    {
      if buffer.Some? then Some(buffer.value.state) else None
    }

    constructor (grpc: bool, routeSetting: Option<bool>, pluginInsists: bool, threshold: nat)
      ensures Valid() && View() == None && Owned() == {}
      ensures buffering <==> !grpc && (pluginInsists || routeSetting == None || routeSetting == Some(true))
      ensures buffering == Buffering(grpc, routeSetting, pluginInsists) && this.threshold == threshold
    {
      buffering := Buffering(grpc, routeSetting, pluginInsists);
      this.threshold := threshold;
      buffer, serviceResponseBody := None, None;
    }

    method Filter(c: Chunk) returns (out: Option<Bytes>)
      requires Valid()
      modifies this, Owned()
      ensures Valid() && fresh(Owned() - old(Owned()))
      ensures (out, View()) == Step(buffering, old(View()), threshold, c)
      ensures buffering && c.last && out.Some? ==> serviceResponseBody == out
    {
      out := c.body;
      if buffering {
        if c.body.Some? {
          if buffer.None? {
            var b := new SpillableBuffer.WithThreshold(threshold);
            buffer := Some(b);
          }
          buffer.value.Extend(c.body.value, c.disk);
        }
        out := None;
        if c.last && buffer.Some? {
          var bytes := buffer.value.Finish(c.back);
          buffer := None;
          serviceResponseBody := Some(bytes);
          out := Some(bytes);
        }
      }
    }
  }

  // ---------------------------------------------------------------- whole streams

  /** All bytes handed on over a stream. */
  function Emitted(buffering: bool, buffer: Option<State>, threshold: nat, chunks: seq<Chunk>): Bytes
    decreases |chunks|
  {
    if chunks == [] then []
    else
      var (out, now) := Step(buffering, buffer, threshold, chunks[0]);
      Payload(out) + Emitted(buffering, now, threshold, chunks[1..])
  }

  /** No write falls short after the move to a file, and the bytes can be read back at the end. */
  predicate Kept(buffer: Option<State>, threshold: nat, chunks: seq<Chunk>)
    decreases |chunks|
  {
    if chunks == [] then true
    else
      var c, now := chunks[0], Buffered(buffer, threshold, chunks[0]);
      && (c.body.Some? ==> !Loses(Held(buffer), c.body.value, c.disk))
      && if c.last then ReadsBack(Held(now), c.back) else Kept(now, threshold, chunks[1..])
  }

  lemma {:induction false} StreamsAll(buffer: Option<State>, threshold: nat, chunks: seq<Chunk>)
    ensures Emitted(false, buffer, threshold, chunks) == Received(chunks)
  {
    if chunks != [] {
      StreamsAll(buffer, threshold, chunks[1..]);
    }
  }

  lemma HoldsMore(buffer: Option<State>, threshold: nat, c: Chunk)
    ensures var lost := c.body.Some? && Loses(Held(buffer), c.body.value, c.disk);
            var now := Held(Buffered(buffer, threshold, c)).bytes;
            && (!lost ==> now == Held(buffer).bytes + Payload(c.body))
            && (lost ==> |now| < |Held(buffer).bytes| + |Payload(c.body)|)
  {
  }

  /** What was held and what was received came out whole if kept, and short otherwise. */
  ghost predicate Accounts(emitted: Bytes, held: Bytes, received: Bytes, kept: bool) {
    if kept then emitted == held + received else |emitted| < |held| + |received|
  }

  /** One more chunk in front, which may itself be cut short. */
  lemma AccountsEarlier(emitted: Bytes, now: Bytes, later: Bytes, kept: bool, held: Bytes, payload: Bytes, lost: bool)
    requires Accounts(emitted, now, later, kept)
    requires if lost then |now| < |held| + |payload| else now == held + payload
    ensures Accounts(emitted, held, payload + later, !lost && kept)
  {
    assert held + payload + later == held + (payload + later);
  }

  lemma {:induction false} BufferedEmits(buffer: Option<State>, threshold: nat, chunks: seq<Chunk>)
    requires OneStream(chunks)
    ensures Accounts(Emitted(true, buffer, threshold, chunks), Held(buffer).bytes, Received(chunks), Kept(buffer, threshold, chunks))
    decreases |chunks|
  {
    var c, now := chunks[0], Buffered(buffer, threshold, chunks[0]);
    var lost := c.body.Some? && Loses(Held(buffer), c.body.value, c.disk);
    OneStreamTail(chunks);
    HoldsMore(buffer, threshold, c);
    if c.last {
      LastChunk(buffer, threshold, chunks, c, now);
      AccountsEarlier(Emitted(true, buffer, threshold, chunks), Held(now).bytes, [], ReadsBack(Held(now), c.back),
                      Held(buffer).bytes, Payload(c.body), lost);
    } else {
      var rest := chunks[1..];
      BufferedEmits(now, threshold, rest);
      AccountsEarlier(Emitted(true, now, threshold, rest), Held(now).bytes, Received(rest), Kept(now, threshold, rest),
                      Held(buffer).bytes, Payload(c.body), lost);
    }
  }

  lemma LastChunk(buffer: Option<State>, threshold: nat, chunks: seq<Chunk>, c: Chunk, now: Option<State>)
    requires chunks == [c] && c.last && now == Buffered(buffer, threshold, c)
    ensures Received(chunks) == Payload(c.body) + []
    ensures Accounts(Emitted(true, buffer, threshold, chunks), Held(now).bytes, [], ReadsBack(Held(now), c.back))
  {
    assert chunks[1..] == [];
    assert Emitted(true, buffer, threshold, chunks) == Finished(Held(now), c.back);
  }

  /** For every chunking and every threshold, buffering emits the bytes streaming would, exactly when
      nothing goes wrong with the file after the move to it: whatever fails before or during the
      move does no harm. */
  lemma BufferedIsStreamedExactlyWhen(threshold: nat, chunks: seq<Chunk>)
    requires OneStream(chunks)
    ensures Emitted(true, None, threshold, chunks) == Emitted(false, None, threshold, chunks)
            <==> Kept(None, threshold, chunks)
  {
    StreamsAll(None, threshold, chunks);
    BufferedEmits(None, threshold, chunks);
  }

  /** A disk on which no file can be created, or no write succeeds, loses nothing at all. */
  lemma {:induction false} UselessDiskKeepsAll(buffer: Option<State>, threshold: nat, chunks: seq<Chunk>)
    requires Held(buffer).Memory?
    requires forall i :: 0 <= i < |chunks| ==>
               !chunks[i].disk.created || !chunks[i].disk.first.ok || !chunks[i].disk.second.ok
    ensures Kept(buffer, threshold, chunks)
    decreases |chunks|
  {
    if chunks != [] {
      var now := Buffered(buffer, threshold, chunks[0]);
      UselessDiskKeepsAll(now, threshold, chunks[1..]);
    }
  }

  /** Nothing reaches the client before the end of the stream. */
  lemma {:induction false} NothingBeforeTheEnd(buffer: Option<State>, threshold: nat, chunks: seq<Chunk>)
    requires forall i :: 0 <= i < |chunks| ==> !chunks[i].last
    ensures Emitted(true, buffer, threshold, chunks) == []
    decreases |chunks|
  {
    if chunks != [] {
      NothingBeforeTheEnd(Buffered(buffer, threshold, chunks[0]), threshold, chunks[1..]);
    }
  }
}
