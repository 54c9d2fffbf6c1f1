/** Streaming of a sound that is played in a loop: source_play queues the first buffers, update_stream
    refills as many as the device says it has played. The device is the environment; `queued` is
    everything it was ever given, in order. */
module Audio {
  import opened Bits

  const STREAM_BUFFER_NUM: nat := 4
  const STREAM_BUFFER_SIZE: nat := 65536

  /** The first n bytes of the sound repeated for ever. */
  function Looped(data: seq<byte>, n: nat): (s: seq<byte>)
    requires data != []
    ensures |s| == n && forall t :: 0 <= t < n ==> s[t] == data[t % |data|]
  {
    seq<byte>(n, t requires 0 <= t < n => data[t % |data|])
  }

  /** The cursor stands where the next byte of the loop is, at the end or at the start of the data. */
  ghost predicate InStep(cursor: nat, n: nat, total: nat)
    requires total > 0
  {
    cursor <= total && cursor % total == n % total
  }

  lemma ModAdd(a: nat, b: nat, i: nat, n: nat)
    requires n > 0 && a % n == b % n
    ensures (a + i) % n == (b + i) % n
  {
    ModPlus(a, i, n);
    ModPlus(b, i, n);
  }

  lemma ModOnce(x: nat, n: nat)
    requires 0 < n && x < 2 * n
    ensures x % n == if x < n then x else x - n
  {
    if x < n { DivModUnique(0, n, x); } else { DivModUnique(1, n, x - n); }
  }

  /** A buffer filled at the cursor: up to the end of the data, and the rest from its start. */
  ghost predicate Filled(data: seq<byte>, cursor: nat, buffer: seq<byte>)
  {
    cursor <= |data| && |buffer| <= |data| &&
    forall i :: 0 <= i < |buffer| ==>
      buffer[i] == if cursor + i < |data| then data[cursor + i] else data[cursor + i - |data|]
  }

  /** A filled buffer goes on exactly where the loop was. */
  lemma FilledGoesOn(data: seq<byte>, cursor: nat, buffer: seq<byte>, n: nat)
    requires data != [] && InStep(cursor, n, |data|) && Filled(data, cursor, buffer)
    ensures Looped(data, n) + buffer == Looped(data, n + |buffer|)
  {
    var all := Looped(data, n) + buffer;
    forall t | 0 <= t < n + |buffer|
      ensures all[t] == data[t % |data|]
    {
      if t >= n {
        ModAdd(cursor, n, t - n, |data|);
        CursorIndex(data, cursor, t - n);
      }
    }
  }

  lemma CursorIndex(data: seq<byte>, cursor: nat, i: nat)
    requires cursor <= |data| && i < |data|
    ensures (cursor + i) % |data| == if cursor + i < |data| then cursor + i else cursor + i - |data|
  {
    ModOnce(cursor + i, |data|);
  }

  // ---------------------------------------------------------------------------
  // Where the source reads

  /** The copies for one buffer, from the cursor and from the start, stay inside n bytes of data. */
  predicate InBounds(cursor: nat, n: nat) {
    cursor <= n && (cursor + STREAM_BUFFER_SIZE <= n || STREAM_BUFFER_SIZE - (n - cursor) <= n)
  }

  function NextCursor(cursor: nat, n: nat): nat
    requires InBounds(cursor, n)
  {
    if cursor + STREAM_BUFFER_SIZE > n then STREAM_BUFFER_SIZE - (n - cursor) else cursor + STREAM_BUFFER_SIZE
  }

  /** The cursor after k buffers; it stays where the first read out of bounds is. */
  function CursorAfter(cursor: nat, n: nat, k: nat): (c: nat)
  {
    if k == 0 then cursor
    else
      var c := CursorAfter(cursor, n, k - 1);
      if InBounds(c, n) then NextCursor(c, n) else c
  }

  /** Refilling never reads outside the data. */
  ghost predicate AlwaysInBounds(cursor: nat, n: nat) {
    forall k: nat :: InBounds(CursorAfter(cursor, n, k), n)
  }

  /** From any cursor, refilling stays in bounds for ever exactly if the cursor is not beyond the data and
      these fill one buffer. The initial queueing leaves the cursor beyond data of less than four. */
  lemma RefillsInBoundsIff(cursor: nat, n: nat)
    ensures AlwaysInBounds(cursor, n) <==> cursor <= n && n >= 65536
  {
    if cursor > n {
      assert !InBounds(CursorAfter(cursor, n, 0), n);
    } else if n >= STREAM_BUFFER_SIZE {
      forall k: nat
        ensures InBounds(CursorAfter(cursor, n, k), n)
      {
        StaysInside(cursor, n, k);
      }
    } else {
      if AlwaysInBounds(cursor, n) {
        Creeps(cursor, n, n + 1);
      }
    }
  }

  lemma {:induction false} StaysInside(cursor: nat, n: nat, k: nat)
    requires cursor <= n && n >= STREAM_BUFFER_SIZE
    ensures CursorAfter(cursor, n, k) <= n
  {
    if k > 0 { StaysInside(cursor, n, k - 1); }
  }

  /** With less data than that every turn wraps, and ends further up than the one before. */
  lemma {:induction false} Creeps(cursor: nat, n: nat, k: nat)
    requires n < STREAM_BUFFER_SIZE && AlwaysInBounds(cursor, n)
    ensures k <= CursorAfter(cursor, n, k) <= n
  {
    assert InBounds(CursorAfter(cursor, n, k), n);
    if k > 0 {
      Creeps(cursor, n, k - 1);
    }
  }

  /** The initial queueing reads inside n bytes of data. */
  predicate QueueingInBounds(n: nat) {
    forall i :: 0 <= i < STREAM_BUFFER_NUM ==> Ix(i, STREAM_BUFFER_SIZE) + STREAM_BUFFER_SIZE <= n
  }

  lemma QueueingInBoundsIff(n: nat)
    ensures QueueingInBounds(n) <==> n >= 4 * 65536
  {
    if QueueingInBounds(n) {
      var i := STREAM_BUFFER_NUM - 1;
      assert Ix(i, STREAM_BUFFER_SIZE) + STREAM_BUFFER_SIZE <= n;
    }
  }

  // ---------------------------------------------------------------------------

  class SourceData {
    const audioData: seq<byte>
    var streamCursor: nat
    ghost var queued: seq<byte>

    /** Everything queued so far is the sound in a loop, and the cursor is in step with it. */
    ghost predicate Valid()
      reads this
    {
      && |audioData| >= STREAM_BUFFER_SIZE
      && queued == Looped(audioData, |queued|) && InStep(streamCursor, |queued|, |audioData|)
    }

    /** A source that has queued nothing yet. */
    constructor (audioData: seq<byte>)
      ensures this.audioData == audioData && streamCursor == 0 && queued == []
      ensures |audioData| >= STREAM_BUFFER_SIZE ==> Valid()
    {
      this.audioData := audioData;
      streamCursor, queued := 0, [];
    }

    /** source_play: queue the first buffers. */
    method SourcePlay()
      requires queued == [] && QueueingInBounds(|audioData|)
      modifies this
      ensures Valid() && |queued| == streamCursor == STREAM_BUFFER_NUM * STREAM_BUFFER_SIZE
    {
      QueueingInBoundsIff(|audioData|);
      var i := 0;
      while i < STREAM_BUFFER_NUM
        invariant 0 <= i <= STREAM_BUFFER_NUM && queued == audioData[..i * STREAM_BUFFER_SIZE]
      {
        queued := queued + audioData[i * STREAM_BUFFER_SIZE..i * STREAM_BUFFER_SIZE + STREAM_BUFFER_SIZE];
        i := i + 1;
      }
      streamCursor := STREAM_BUFFER_NUM * STREAM_BUFFER_SIZE;
      LoopStarts(audioData, |queued|);
    }

    /** update_stream, for any number of buffers the device reports as played. */
    method UpdateStream(buffersProcessed: int)
      requires Valid()
      modifies this
      ensures Valid() && old(queued) <= queued
      ensures |queued| == |old(queued)| + (if buffersProcessed > 0 then Ix(buffersProcessed, STREAM_BUFFER_SIZE) else 0)
    {
      hide Looped;
      if buffersProcessed <= 0 {
        return;
      }
      var left, done: nat := buffersProcessed, 0;
      IxStep(0, STREAM_BUFFER_SIZE);
      while left > 0
        invariant left >= 0 && done + left == buffersProcessed && Valid() && old(queued) <= queued
        invariant |queued| == |old(queued)| + Ix(done, STREAM_BUFFER_SIZE)
      {
        left := left - 1;
        Refill();
        IxStep(done, STREAM_BUFFER_SIZE);
        done := done + 1;
      }
    }

    /** One buffer. */
    method Refill()
      requires Valid()
      modifies this
      ensures Valid() && |queued| == |old(queued)| + STREAM_BUFFER_SIZE && old(queued) <= queued
      ensures InBounds(old(streamCursor), |audioData|) && streamCursor == NextCursor(old(streamCursor), |audioData|)
    {
      hide Looped, InStep;
      CursorBound(streamCursor, |queued|, |audioData|);
      ghost var cursor, n := streamCursor, |queued|;
      var data := new byte[STREAM_BUFFER_SIZE](_ => 0);
      var dataSizeToCopy := STREAM_BUFFER_SIZE;
      if streamCursor + STREAM_BUFFER_SIZE > |audioData| {
        dataSizeToCopy := |audioData| - streamCursor;
      }
      forall i | 0 <= i < dataSizeToCopy { data[i] := audioData[streamCursor + i]; }
      streamCursor := streamCursor + dataSizeToCopy;
      if dataSizeToCopy < STREAM_BUFFER_SIZE {
        streamCursor := 0;
        forall i | dataSizeToCopy <= i < STREAM_BUFFER_SIZE { data[i] := audioData[streamCursor + (i - dataSizeToCopy)]; }
        streamCursor := STREAM_BUFFER_SIZE - dataSizeToCopy;
      }
      queued := queued + data[..];
      FilledGoesOn(audioData, cursor, data[..], n);
      StepOn(cursor, n, |audioData|, STREAM_BUFFER_SIZE, streamCursor);
    }
  }

  lemma CursorBound(cursor: nat, n: nat, total: nat)
    requires total > 0 && InStep(cursor, n, total)
    ensures cursor <= total
  {
  }

  /** The cursor after a buffer of `size` bytes. */
  lemma StepOn(cursor: nat, n: nat, total: nat, size: nat, next: nat)
    requires total > 0 && InStep(cursor, n, total) && size <= total
    requires next == if cursor + size > total then cursor + size - total else cursor + size
    ensures InStep(next, n + size, total)
  {
    ModAdd(cursor, n, size, total);
    if cursor + size > total {
      ModSkip(1, next, total);
    }
  }

  lemma LoopStarts(data: seq<byte>, n: nat)
    requires data != [] && n <= |data|
    ensures data[..n] == Looped(data, n)
  {
    forall t | 0 <= t < n ensures data[t] == data[t % |data|] { DivModUnique(0, |data|, t); }
  }
}
