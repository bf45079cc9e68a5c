/** A byte buffer that moves from memory to a temporary file when it outgrows its threshold. The
    outcome of every file operation is arbitrary. */
module SpillableBuffers {
  import opened Wrappers

  type Bytes = seq<bv8>

  const DEFAULT_THRESHOLD := 10 * 1024 * 1024

  /** A write or read that succeeds, or fails after some of the bytes. */
  datatype Transfer = Transfer(ok: bool, count: nat)

  /** Creating the file, writing what was in memory, writing the new bytes. */
  datatype Disk = Disk(created: bool, first: Transfer, second: Transfer)

  /** Rewinding the file and reading it back. */
  datatype ReadBack = ReadBack(sought: bool, read: Transfer)

  datatype State = Memory(bytes: Bytes) | File(bytes: Bytes, len: nat)

  function Moved(data: Bytes, t: Transfer): Bytes {
    if t.ok || t.count >= |data| then data else data[..t.count]
  }

  function Extended(s: State, threshold: nat, data: Bytes, disk: Disk): State {
    match s
    case Memory(bytes) =>
      if |bytes| + |data| > threshold && disk.created && disk.first.ok && disk.second.ok
      then File(bytes + data, |bytes| + |data|) else Memory(bytes + data)
    case File(bytes, len) => File(bytes + Moved(data, disk.second), len + |data|)
  }

  function Finished(s: State, back: ReadBack): Bytes {
    match s
    case Memory(bytes) => bytes
    case File(bytes, _) => if back.sought then Moved(bytes, back.read) else []
  }

  /** A write to the file falls short once the buffer has moved there. */
  predicate Loses(s: State, data: Bytes, disk: Disk) {
    s.File? && !disk.second.ok && disk.second.count < |data|
  }

  /** All that is in the buffer can be read back. */
  predicate ReadsBack(s: State, back: ReadBack) {
    s.File? && s.bytes != [] ==> back.sought && (back.read.ok || back.read.count >= |s.bytes|)
  }

  class SpillableBuffer {
    var state: State
    var threshold: nat

    constructor WithThreshold(threshold: nat)
      ensures state == Memory([]) && this.threshold == threshold
    {
      state := Memory([]);
      this.threshold := threshold;
    }

    constructor FromBytes(data: Bytes)
      ensures state == Memory(data) && threshold == DEFAULT_THRESHOLD
    {
      state := Memory(data);
      threshold := DEFAULT_THRESHOLD;
    }

    /** Nothing is lost unless a write falls short after the move to a file: a failure to create
        the file, or of a write during the move, leaves all bytes in memory. */
    method Extend(data: Bytes, disk: Disk)
      modifies this
      ensures state == Extended(old(state), threshold, data, disk) && threshold == old(threshold)
      ensures !Loses(old(state), data, disk) ==> state.bytes == old(state.bytes) + data
      ensures Loses(old(state), data, disk) ==>
                state.bytes == old(state.bytes) + data[..disk.second.count] && |state.bytes| < |old(state.bytes)| + |data|
      ensures state.File? ==> state.len == (if old(state).File? then old(state.len) else |old(state.bytes)|) + |data|
    {
      match state
      case Memory(bytes) =>
        if |bytes| + |data| > threshold {
          if disk.created {
            if !disk.first.ok {
              state := Memory(bytes + data);
              return;
            }
            if !disk.second.ok {
              state := Memory(bytes + data);
              return;
            }
            state := File(bytes + data, |bytes| + |data|);
          } else {
            state := Memory(bytes + data);
          }
        } else {
          state := Memory(bytes + data);
        }
      case File(bytes, len) =>
        state := File(bytes + Moved(data, disk.second), len + |data|);
    }

    /** Gives back the bytes, all of them if they can be read back and fewer otherwise. */
    method Finish(back: ReadBack) returns (bytes: Bytes)
      ensures bytes == Finished(state, back)
      ensures ReadsBack(state, back) ==> bytes == state.bytes
      ensures !ReadsBack(state, back) ==> |bytes| < |state.bytes| && bytes <= state.bytes
      ensures !ReadsBack(state, back) ==> |bytes| == if back.sought then back.read.count else 0
    {
      match state
      case Memory(held) => return held;
      case File(held, _) =>
        if !back.sought {
          return [];
        }
        return Moved(held, back.read);
    }
  }

  // ---------------------------------------------------------------- whole runs

  datatype Write = Write(data: Bytes, disk: Disk)

  /** The buffer after a run of writes. */
  function Feed(s: State, threshold: nat, writes: seq<Write>): State {
    if writes == [] then s
    else
      var last := writes[|writes| - 1];
      Extended(Feed(s, threshold, writes[..|writes| - 1]), threshold, last.data, last.disk)
  }

  function Data(writes: seq<Write>): Bytes {
    if writes == [] then [] else Data(writes[..|writes| - 1]) + writes[|writes| - 1].data
  }

  /** Some write falls short after the move to a file. */
  ghost predicate SomeLoss(s: State, threshold: nat, writes: seq<Write>) {
    exists i :: 0 <= i < |writes| && Loses(Feed(s, threshold, writes[..i]), writes[i].data, writes[i].disk)
  }

  lemma SomeLossOneMore(s: State, threshold: nat, writes: seq<Write>, front: seq<Write>, w: Write)
    requires writes == front + [w]
    ensures SomeLoss(s, threshold, writes) <==> SomeLoss(s, threshold, front) || Loses(Feed(s, threshold, front), w.data, w.disk)
  {
    forall i | 0 <= i <= |front|
      ensures writes[..i] == front[..i]
    {
    }
    assert writes[..|front|] == front && front[..|front|] == front;
    assert forall i :: 0 <= i < |front| ==> writes[i] == front[i];
    if SomeLoss(s, threshold, front) {
      var i :| 0 <= i < |front| && Loses(Feed(s, threshold, front[..i]), front[i].data, front[i].disk);
      assert Loses(Feed(s, threshold, writes[..i]), writes[i].data, writes[i].disk);
    }
    if Loses(Feed(s, threshold, front), w.data, w.disk) {
      assert Loses(Feed(s, threshold, writes[..|front|]), writes[|front|].data, writes[|front|].disk);
    }
  }

  /** Over any run of writes, for any threshold and any failures: the buffer holds exactly the
      bytes written unless a write falls short after the move to a file, and then it holds fewer. */
  lemma {:induction false} HoldsAllExactlyWhen(s: State, threshold: nat, writes: seq<Write>)
    ensures !SomeLoss(s, threshold, writes) ==> Feed(s, threshold, writes).bytes == s.bytes + Data(writes)
    ensures SomeLoss(s, threshold, writes) ==> |Feed(s, threshold, writes).bytes| < |s.bytes| + |Data(writes)|
  {
    if writes != [] {
      var front, w := writes[..|writes| - 1], writes[|writes| - 1];
      HoldsAllExactlyWhen(s, threshold, front);
      SomeLossOneMore(s, threshold, writes, front, w);
    }
  }

  /** As long as every file operation succeeds, memory never holds more than the threshold, and
      the recorded length is the number of bytes. */
  lemma {:induction false} MemoryIsBounded(threshold: nat, writes: seq<Write>)
    requires forall i :: 0 <= i < |writes| ==> writes[i].disk.created && writes[i].disk.first.ok && writes[i].disk.second.ok
    ensures var s := Feed(Memory([]), threshold, writes);
            && (s.Memory? <==> |Data(writes)| <= threshold)
            && (s.File? ==> s.len == |s.bytes|) && s.bytes == Data(writes)
  {
    if writes != [] {
      MemoryIsBounded(threshold, writes[..|writes| - 1]);
    }
  }
}
