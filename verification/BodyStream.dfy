/** A body passing through a filter, one call per chunk. */
module BodyStream {
  import opened Wrappers
  import opened SpillableBuffers

  /** One call: the chunk, whether it ends the stream, whether the interval since the last stamped
      chunk was too long (which only the request filter asks), and what the disk does. */
  datatype Chunk = Chunk(body: Option<Bytes>, last: bool, late: bool, disk: Disk, back: ReadBack)

  function Payload(body: Option<Bytes>): Bytes {
    if body.Some? then body.value else []
  }

  function Received(chunks: seq<Chunk>): Bytes {
    if chunks == [] then [] else Payload(chunks[0].body) + Received(chunks[1..])
  }

  /** The end of the stream is flagged once, by the last call. */
  ghost predicate OneStream(chunks: seq<Chunk>) {
    chunks != [] && forall i :: 0 <= i < |chunks| ==> (chunks[i].last <==> i == |chunks| - 1)
  }

  lemma OneStreamTail(chunks: seq<Chunk>)
    requires OneStream(chunks)
    ensures chunks[0].last <==> |chunks| == 1
    ensures |chunks| > 1 ==> OneStream(chunks[1..]) && chunks[1..][|chunks| - 2] == chunks[|chunks| - 1]
  {
    if |chunks| > 1 {
      var rest := chunks[1..];
      forall i | 0 <= i < |rest|
        ensures rest[i].last <==> i == |rest| - 1
      {
        assert rest[i] == chunks[i + 1];
      }
    }
  }
}
