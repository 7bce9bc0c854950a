/** The read loop of `run_yt` (src/main.rs): chunks read from the downloader's
    output are appended to `buffer`; once at least `target_time` has elapsed since
    the last flush the whole buffer is handed to `get_ts_audio`, the timer is reset
    and the buffer cleared; at end of stream a non-empty buffer is handed over once
    more. The clock is the timestamp supplied with each chunk. */
module WindowAccumulator {
  import opened TsPackets
  import AudioDemux

  /** A reading of the monotonic clock (`Instant`), in nanoseconds. */
  type Time = nat

  /** `Duration::from_secs(10)`, the window length `run_yt` uses. */
  const TARGET_TIME: nat := 10 * 1_000_000_000

  /** One `fill_buf` call: the bytes it returned (empty at end of stream) with the
      clock reading at which the loop looks at them, or an I/O error. */
  datatype Fill = Filled(chunk: seq<u8>, now: Time) | FillError

  /** `Instant::elapsed`, which saturates at zero. */
  function Elapsed(since: Time, now: Time): (r: nat)
    ensures r <= now
    ensures now >= since ==> since + r == now
    ensures now <= since ==> r == 0
  {
    if now >= since then now - since else 0
  }

  /** A fill that the loop appends to the buffer. */
  predicate IsChunk(f: Fill) {
    f.Filled? && f.chunk != []
  }

  /** The fills the loop consumes: all of them up to the first empty one (end of
      stream) or the first error. */
  function ChunksRead(source: seq<Fill>): (cs: seq<Fill>)
    ensures |cs| <= |source| && cs == source[..|cs|]
    ensures forall k :: 0 <= k < |cs| ==> IsChunk(cs[k])
    ensures |cs| < |source| ==> !IsChunk(source[|cs|])
  {
    if source == [] || !IsChunk(source[0]) then []
    else [source[0]] + ChunksRead(source[1..])
  }

  /** The loop ends with `fill_buf` failing, so `run_yt` returns the error: some
      fill is an error and every fill before it is a non-empty chunk. */
  predicate ReadFails(source: seq<Fill>)
    ensures ReadFails(source) <==>
      exists k :: 0 <= k < |source| && source[k].FillError? && forall j :: 0 <= j < k ==> IsChunk(source[j])
  {
    var n := |ChunksRead(source)|;
    n < |source| && source[n].FillError?
  }

  /** The concatenation of a sequence of byte windows. */
  function Flatten(ws: seq<seq<u8>>): seq<u8>
    decreases |ws|
  {
    if ws == [] then [] else Flatten(ws[..|ws| - 1]) + ws[|ws| - 1]
  }

  /** The concatenation of the bytes of a sequence of fills. */
  function BytesOf(cs: seq<Fill>): seq<u8>
    requires forall k :: 0 <= k < |cs| ==> cs[k].Filled?
    decreases |cs|
  {
    if cs == [] then [] else BytesOf(cs[..|cs| - 1]) + cs[|cs| - 1].chunk
  }

  /** The loop's state: `buffer`, `last_processed`, and every buffer handed to
      `get_ts_audio` so far, in order. */
  datatype Accumulator = Accumulator(buffer: seq<u8>, lastProcessed: Time, flushed: seq<seq<u8>>)

  /** The state before the first read: empty buffer, timer started at `start`,
      nothing handed over yet, so ending the run here hands over no window. */
  function Start(start: Time): (r: Accumulator)
    ensures r.buffer == [] && r.flushed == [] && r.lastProcessed == start
    ensures Finish(r) == []
  {
    Accumulator([], start, [])
  }

  /** One loop iteration on a chunk, the transition itself: the chunk is appended
      first, then the timer is checked, so the chunk that triggers a flush belongs to
      that flush's window. Its contract is the whole new state; what a run of
      iterations keeps is proved in the lemmas about `FeedAll`. */
  function Feed(targetTime: nat, acc: Accumulator, f: Fill): (r: Accumulator)
    requires f.Filled?
    ensures Elapsed(acc.lastProcessed, f.now) >= targetTime ==>
      r.flushed == acc.flushed + [acc.buffer + f.chunk] && r.buffer == [] && r.lastProcessed == f.now
    ensures Elapsed(acc.lastProcessed, f.now) < targetTime ==>
      r.flushed == acc.flushed && r.buffer == acc.buffer + f.chunk && r.lastProcessed == acc.lastProcessed
  {
    var buffer := acc.buffer + f.chunk;
    if Elapsed(acc.lastProcessed, f.now) >= targetTime then Accumulator([], f.now, acc.flushed + [buffer])
    else Accumulator(buffer, acc.lastProcessed, acc.flushed)
  }

  /** The state after the loop has consumed `cs`. */
  function FeedAll(targetTime: nat, acc: Accumulator, cs: seq<Fill>): (r: Accumulator)
    requires forall k :: 0 <= k < |cs| ==> cs[k].Filled?
    ensures acc.flushed <= r.flushed
    ensures |r.flushed| <= |acc.flushed| + |cs|
    decreases |cs|
  {
    if cs == [] then acc else Feed(targetTime, FeedAll(targetTime, acc, cs[..|cs| - 1]), cs[|cs| - 1])
  }

  /** The end-of-stream flush, the transition itself: all windows handed to
      `get_ts_audio`, the last one added if and only if the buffer is non-empty. */
  function Finish(acc: Accumulator): (ws: seq<seq<u8>>)
    ensures acc.buffer == [] ==> ws == acc.flushed
    ensures acc.buffer != [] ==> ws == acc.flushed + [acc.buffer]
  {
    if acc.buffer != [] then acc.flushed + [acc.buffer] else acc.flushed
  }

  /** The read loop of `run_yt` and its final flush. `windows` holds every buffer
      handed to `get_ts_audio`, `audio` what each call returned (`run_yt` itself
      drops it); `parse` stands for `TsPacketReader` over a window's bytes; `start`
      is the clock reading when the timer is first started. A failing
      `fill_buf` ends the run at once with `readError`, without the final flush. */
  method RunYt(start: Time, source: seq<Fill>, parse: seq<u8> -> seq<ReadOutcome>)
    returns (windows: seq<seq<u8>>, audio: seq<seq<u8>>, readError: bool)
    ensures readError == ReadFails(source)
    ensures !readError ==> windows == Finish(FeedAll(TARGET_TIME, Start(start), ChunksRead(source)))
    ensures readError ==> windows == FeedAll(TARGET_TIME, Start(start), ChunksRead(source)).flushed
    ensures ChunksRead(source) == [] ==> windows == []
    ensures |audio| == |windows|
    ensures forall k :: 0 <= k < |windows| ==>
      audio[k] == AudioDemux.Extracted(0, PacketPrefix(parse(windows[k])))
  {
    windows, audio, readError := [], [], false;
    var buffer: seq<u8> := [];
    var lastProcessed := start;
    var targetTime := TARGET_TIME;
    var i := 0;
    while i < |source|
      invariant 0 <= i <= |source|
      invariant forall k :: 0 <= k < i ==> IsChunk(source[k])
      invariant Accumulator(buffer, lastProcessed, windows) == FeedAll(targetTime, Start(start), source[..i])
      invariant AudioOfWindows(windows, audio, parse)
    {
      var fill := source[i];
      if fill.FillError? {
        ChunksReadIs(source, i);
        readError := true;
        return;
      }
      if fill.chunk == [] {
        break;
      }
      FeedAllSnoc(targetTime, Start(start), source, i);
      buffer := buffer + fill.chunk;
      if Elapsed(lastProcessed, fill.now) >= targetTime {
        windows, audio := HandOver(windows, audio, buffer, parse);
        lastProcessed := fill.now;
        buffer := [];
      }
      i := i + 1;
    }
    ChunksReadIs(source, i);
    if buffer != [] {
      windows, audio := HandOver(windows, audio, buffer, parse);
    }
  }

  /** `get_ts_audio(&buffer)`: the window is handed over and its audio recorded,
      extracted with a fresh register. */
  method HandOver(windows: seq<seq<u8>>, audio: seq<seq<u8>>, buffer: seq<u8>, parse: seq<u8> -> seq<ReadOutcome>)
    returns (windows': seq<seq<u8>>, audio': seq<seq<u8>>)
    requires AudioOfWindows(windows, audio, parse)
    ensures windows' == windows + [buffer]
    ensures AudioOfWindows(windows', audio', parse)
    ensures audio'[|windows|] == AudioDemux.Extracted(0, PacketPrefix(parse(buffer)))
  {
    var data := AudioDemux.GetTsAudio(parse(buffer));
    AudioOfWindowsSnoc(windows, audio, parse, buffer, data);
    windows', audio' := windows + [buffer], audio + [data];
  }

  /** `audio[k]` is what `get_ts_audio` returns on `windows[k]`, a fresh register each time. */
  predicate AudioOfWindows(windows: seq<seq<u8>>, audio: seq<seq<u8>>, parse: seq<u8> -> seq<ReadOutcome>) {
    |audio| == |windows| &&
    forall k :: 0 <= k < |windows| ==> audio[k] == AudioDemux.Extracted(0, PacketPrefix(parse(windows[k])))
  }

  /** Handing one more window to `get_ts_audio` keeps the windows and their audio paired. */
  lemma AudioOfWindowsSnoc(windows: seq<seq<u8>>, audio: seq<seq<u8>>, parse: seq<u8> -> seq<ReadOutcome>,
                           w: seq<u8>, data: seq<u8>)
    requires AudioOfWindows(windows, audio, parse)
    requires data == AudioDemux.Extracted(0, PacketPrefix(parse(w)))
    ensures AudioOfWindows(windows + [w], audio + [data], parse)
  {
  }

  /** One more fill consumed is one more `Feed`. */
  lemma FeedAllSnoc(targetTime: nat, acc: Accumulator, cs: seq<Fill>, i: nat)
    requires i < |cs|
    requires forall k :: 0 <= k <= i ==> cs[k].Filled?
    ensures FeedAll(targetTime, acc, cs[..i + 1]) == Feed(targetTime, FeedAll(targetTime, acc, cs[..i]), cs[i])
  {
    assert cs[..i + 1][..i] == cs[..i];
  }

  /** The fills the loop consumed before stopping at index `i` are `ChunksRead`, and
      the run fails exactly when it stopped at an error. */
  lemma ChunksReadIs(source: seq<Fill>, i: nat)
    requires i <= |source|
    requires forall k :: 0 <= k < i ==> IsChunk(source[k])
    requires i < |source| ==> !IsChunk(source[i])
    ensures ChunksRead(source) == source[..i]
    ensures ReadFails(source) <==> i < |source| && source[i].FillError?
  {
    assert |ChunksRead(source)| == i;
  }

  /** Appending one window to the list appends its bytes to the concatenation. */
  lemma FlattenSnoc(ws: seq<seq<u8>>, w: seq<u8>)
    ensures Flatten(ws + [w]) == Flatten(ws) + w
  {
    assert (ws + [w])[..|ws|] == ws;
  }

  /** Accounting of one iteration: flushed windows plus the buffer grow by the chunk. */
  lemma FeedKeepsBytes(targetTime: nat, acc: Accumulator, f: Fill)
    requires f.Filled?
    ensures acc.flushed <= Feed(targetTime, acc, f).flushed
    ensures Flatten(Feed(targetTime, acc, f).flushed) + Feed(targetTime, acc, f).buffer ==
      Flatten(acc.flushed) + acc.buffer + f.chunk
  {
    var r := Feed(targetTime, acc, f);
    if Elapsed(acc.lastProcessed, f.now) >= targetTime {
      FlattenSnoc(acc.flushed, acc.buffer + f.chunk);
      assert r.buffer == [];
      assert Flatten(r.flushed) + r.buffer == Flatten(acc.flushed) + (acc.buffer + f.chunk);
    }
  }

  /** Accounting of one run of the loop: what was flushed plus what is still
      buffered is what was there before plus every byte read, in order. */
  lemma {:induction false} FeedAllKeepsBytes(targetTime: nat, acc: Accumulator, cs: seq<Fill>)
    requires forall k :: 0 <= k < |cs| ==> cs[k].Filled?
    ensures acc.flushed <= FeedAll(targetTime, acc, cs).flushed
    ensures Flatten(FeedAll(targetTime, acc, cs).flushed) + FeedAll(targetTime, acc, cs).buffer ==
      Flatten(acc.flushed) + acc.buffer + BytesOf(cs)
    decreases |cs|
  {
    if cs == [] {
      assert BytesOf(cs) == [];
    } else {
      var init := cs[..|cs| - 1];
      var f := cs[|cs| - 1];
      FeedAllKeepsBytes(targetTime, acc, init);
      var mid := FeedAll(targetTime, acc, init);
      FeedKeepsBytes(targetTime, mid, f);
      var r := FeedAll(targetTime, acc, cs);
      assert r == Feed(targetTime, mid, f);
      assert BytesOf(cs) == BytesOf(init) + f.chunk;
      calc {
        Flatten(r.flushed) + r.buffer;
        (Flatten(mid.flushed) + mid.buffer) + f.chunk;
        (Flatten(acc.flushed) + acc.buffer + BytesOf(init)) + f.chunk;
        Flatten(acc.flushed) + acc.buffer + BytesOf(cs);
      }
    }
  }

  /** No byte lost, none duplicated, order kept: the windows handed to `get_ts_audio`,
      the final one included, concatenate to exactly the bytes read. */
  lemma NoByteLostOrDuplicated(start: Time, targetTime: nat, source: seq<Fill>)
    requires !ReadFails(source)
    ensures Flatten(Finish(FeedAll(targetTime, Start(start), ChunksRead(source)))) == BytesOf(ChunksRead(source))
  {
    var acc := FeedAll(targetTime, Start(start), ChunksRead(source));
    FeedAllKeepsBytes(targetTime, Start(start), ChunksRead(source));
    assert Flatten(acc.flushed) + acc.buffer == BytesOf(ChunksRead(source));
    if acc.buffer != [] {
      var ws := acc.flushed + [acc.buffer];
      assert ws[..|ws| - 1] == acc.flushed;
      assert Flatten(ws) == Flatten(acc.flushed) + acc.buffer;
    } else {
      assert Flatten(acc.flushed) + acc.buffer == Flatten(acc.flushed);
    }
  }

  /** After a read error the windows already handed over are a prefix of the bytes
      read; the buffered rest is dropped. */
  lemma ReadErrorDropsOnlyBuffer(start: Time, targetTime: nat, source: seq<Fill>)
    ensures Flatten(FeedAll(targetTime, Start(start), ChunksRead(source)).flushed) +
      FeedAll(targetTime, Start(start), ChunksRead(source)).buffer == BytesOf(ChunksRead(source))
  {
    FeedAllKeepsBytes(targetTime, Start(start), ChunksRead(source));
  }

  /** Every window handed to `get_ts_audio`, in the loop or at the end, is non-empty. */
  lemma {:induction false} WindowsNonEmpty(targetTime: nat, acc: Accumulator, cs: seq<Fill>)
    requires forall k :: 0 <= k < |cs| ==> cs[k].Filled? && cs[k].chunk != []
    requires forall k :: 0 <= k < |acc.flushed| ==> acc.flushed[k] != []
    ensures forall k :: 0 <= k < |Finish(FeedAll(targetTime, acc, cs))| ==> Finish(FeedAll(targetTime, acc, cs))[k] != []
    ensures forall k :: 0 <= k < |FeedAll(targetTime, acc, cs).flushed| ==> FeedAll(targetTime, acc, cs).flushed[k] != []
    decreases |cs|
  {
    if cs != [] {
      WindowsNonEmpty(targetTime, acc, cs[..|cs| - 1]);
    }
  }

  /** Timing: with a positive window length, each flush inside the loop comes at
      least `targetTime` after the previous one (or after the start), so `n` flushes
      move the timer forward by at least `n * targetTime`. */
  lemma {:induction false} FlushesAreSpaced(targetTime: nat, acc: Accumulator, cs: seq<Fill>)
    requires targetTime > 0
    requires forall k :: 0 <= k < |cs| ==> cs[k].Filled?
    ensures |acc.flushed| <= |FeedAll(targetTime, acc, cs).flushed|
    ensures FeedAll(targetTime, acc, cs).lastProcessed >=
      acc.lastProcessed + targetTime * (|FeedAll(targetTime, acc, cs).flushed| - |acc.flushed|)
    decreases |cs|
  {
    if cs != [] {
      var init := cs[..|cs| - 1];
      FlushesAreSpaced(targetTime, acc, init);
      var mid := FeedAll(targetTime, acc, init);
      var n := |mid.flushed| - |acc.flushed|;
      assert targetTime * (n + 1) == targetTime * n + targetTime;
    }
  }

  /** No flush happens inside the loop while every chunk arrives less than
      `targetTime` after the last flush. */
  lemma {:induction false} NoFlushBeforeTarget(targetTime: nat, acc: Accumulator, cs: seq<Fill>)
    requires forall k :: 0 <= k < |cs| ==> cs[k].Filled? && Elapsed(acc.lastProcessed, cs[k].now) < targetTime
    ensures FeedAll(targetTime, acc, cs).flushed == acc.flushed
    ensures FeedAll(targetTime, acc, cs).lastProcessed == acc.lastProcessed
    ensures FeedAll(targetTime, acc, cs).buffer == acc.buffer + BytesOf(cs)
    decreases |cs|
  {
    if cs != [] {
      NoFlushBeforeTarget(targetTime, acc, cs[..|cs| - 1]);
    }
  }

  /** With a zero window length every chunk is flushed on its own, right away. */
  lemma {:induction false} ZeroTargetFlushesEveryChunk(acc: Accumulator, cs: seq<Fill>)
    requires forall k :: 0 <= k < |cs| ==> cs[k].Filled?
    requires acc.buffer == []
    ensures FeedAll(0, acc, cs).buffer == []
    ensures FeedAll(0, acc, cs).flushed == acc.flushed + seq(|cs|, k requires 0 <= k < |cs| => cs[k].chunk)
    decreases |cs|
  {
    if cs != [] {
      var init := cs[..|cs| - 1];
      ZeroTargetFlushesEveryChunk(acc, init);
      var mid := FeedAll(0, acc, init);
      var f := cs[|cs| - 1];
      assert FeedAll(0, acc, cs) == Feed(0, mid, f);
      assert mid.buffer + f.chunk == f.chunk;
      assert seq(|cs|, k requires 0 <= k < |cs| => cs[k].chunk) ==
        seq(|init|, k requires 0 <= k < |init| => init[k].chunk) + [f.chunk];
    }
  }
}
