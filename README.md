# Live-stream audio windowing and transport-stream audio extraction

This project models the two pieces of sequential logic in `src/main.rs` of
yt-cli-live-test. The program reads the MPEG-2 transport stream that `yt-dlp`
writes to its standard output. It cuts the stream into roughly 10-second windows
and pulls the ADTS-AAC audio elementary stream out of each window.

- `TsPackets` (`ts_packets.dfy`) holds the packets as the `mpeg2ts` reader returns
  them, already parsed. A packet is a PID and an optional payload: a program map
  table, a PES packet, raw continuation bytes, or anything else. The reader is the
  sequence of results of `read_ts_packet`: a packet, end of stream, or an error.
- `AudioDemux` (`audio_demux.dfy`) models `get_ts_audio`. `GetTsAudio` is the
  loop itself. It keeps the `audio_pid` register (a `u16` starting at 0) and the
  output buffer. The method is proved equal to the specification function
  `Extracted`, applied to the packets read before the first error or end of stream.
  The properties of the extraction are lemmas about `Extracted`.
- `WindowAccumulator` (`window_accumulator.dfy`) models the read loop of `run_yt`.
  `RunYt` is the loop: it appends each chunk to `buffer`, flushes once at least
  `target_time` (10 s) has elapsed, and does the final flush at end of stream. The
  method is proved equal to a fold of the step function `Feed` over the chunks
  read, followed by `Finish`. Each window it flushes is handed to `GetTsAudio`,
  which gets a fresh register every time. The lemmas cover conservation of bytes,
  order and timing.

The source is a sequence of `fill_buf` results: a chunk with the clock reading at
which the loop looks at it, or an I/O error. An empty chunk is end of stream. The
clock is `Instant` in nanoseconds. `Instant::elapsed` saturates at zero, and
`Elapsed` models that explicitly.

Two behaviours of the code are kept exactly:
- The register starts at 0, not unset, and is reset on every call of
  `get_ts_audio`, so nothing carries over between windows. PES or raw payloads on
  PID 0 are therefore extracted when no program map table has been seen
  (`NoAacPmtExtractsOnlyPidZero`, `PidZeroExtractedWithoutPmt`). ISO/IEC 13818-1
  reserves PID 0 for the program association table, so this arises only when the
  reader hands over a PES or raw payload on PID 0, never on a conforming stream.
- `while let Ok(Some(packet))` stops at the first `Err` from the packet reader,
  including one for a single malformed packet, instead of skipping that packet.

## Model

| member | source | states |
|---|---|---|
| `TsPackets.PacketPrefix` | src/main.rs:94 | The packets the loop sees are the reads before the first end of stream or error: each one is a `Packet`, and what follows them is not a packet or does not exist. |
| `TsPackets.PacketPrefixStopsAtFirstFailure` | src/main.rs:94 | Reads after an end of stream or error never reach the loop. |
| `AudioDemux.FindAdtsAac` | src/main.rs:103 | `find` returns the first table entry, in table order, whose stream type is ADTS-AAC (0x0F). It returns none exactly when no entry has that stream type. |
| `AudioDemux.GetTsAudio` | src/main.rs:87-126 | The loop's output, with the register starting at 0, is `Extracted(0, ...)` over the packet prefix. Each packet contributes under the register value it was read with. |
| `AudioDemux.ExtractedSplit` | src/main.rs:94-120 | Extraction over two consecutive runs of packets is the first run's output followed by the second run's output, the second run starting with the register the first left. |
| `AudioDemux.RegisterOnlyMovedByAacPmt` | src/main.rs:100-118 | Packets that are not a PMT with an ADTS-AAC entry leave `audio_pid` unchanged. |
| `AudioDemux.ExtractedWithoutAacPmt` | src/main.rs:98-116 | With no ADTS-AAC PMT, the output is the in-order concatenation of the audio PES data and raw bytes of exactly the packets on the register's PID. |
| `AudioDemux.NoAacPmtExtractsOnlyPidZero` | src/main.rs:92-98 | Starting from 0 with no ADTS-AAC PMT, only PID 0 is extracted. The output is empty when no PID-0 packet carries audio bytes. |
| `AudioDemux.AudioPidAfter` | src/main.rs:92-106 | The `audio_pid` register after a run of packets is its starting value or one of the PIDs the run's ADTS-AAC program map tables announce. |
| `AudioDemux.AnnouncedPidsNamed` | src/main.rs:102-106 | A PID is among the announced PIDs exactly when some packet of the run is a PMT whose first ADTS-AAC entry names it. |
| `AudioDemux.RegisterIsAnnounced` | src/main.rs:92-106 | The register never takes a value that is neither its start value nor named by a PMT of the run. |
| `AudioDemux.NextAudioPid` | src/main.rs:102-106 | The register after one packet: the elementary PID of the first ADTS-AAC entry when the packet is such a PMT, and the old value for every other packet. |
| `AudioDemux.AudioBytes` | src/main.rs:107-116 | The bytes a packet offers: the data of an audio-stream-id PES packet or the raw bytes; nothing for a missing payload, a PMT, a non-audio PES packet or any other payload. |
| `AudioDemux.Appended` | src/main.rs:98-116 | What one packet appends: its audio bytes when its PID equals the register as it was before the packet, and nothing otherwise. |
| `AudioDemux.Extracted` | src/main.rs:94-120 | The loop's output over a run of packets, each packet appending under the register it was read with. The output is never longer than all the audio bytes the packets offer. |
| `AudioDemux.PmtSetsRegister` | src/main.rs:102-106 | A PMT sets `audio_pid` to the elementary PID of its first ADTS-AAC entry. A PMT with no such entry leaves it unchanged. |
| `AudioDemux.LastPmtWins` | src/main.rs:98-116 | After the last ADTS-AAC PMT naming PID q, the output is the output before it followed by the audio bytes of exactly the later packets on q. Packets on the old PID add nothing, and the PMT packet itself is read under the old register. |
| `AudioDemux.SilentPacket` | src/main.rs:100-118 | Packets with no payload, non-audio PES packets, PMTs and other payloads add no bytes. Only a PMT can change the register. |
| `AudioDemux.ExtractionStopsAtFirstFailure` | src/main.rs:94 | The result after a read error or end of stream is the same whatever reads follow. |
| `AudioDemux.PidZeroExtractedWithoutPmt` | src/main.rs:92-110 | With the register at its initial 0, an audio PES packet on PID 0 is extracted although no PMT was seen. |
| `WindowAccumulator.Elapsed` | src/main.rs:45 | `Instant::elapsed`: exactly `now - since` when the clock has not gone back, and zero, by saturation, when it reads earlier. Never more than the current reading. |
| `WindowAccumulator.ReadFails` | src/main.rs:37 | The run ends in the `?` of a failing `fill_buf` exactly when some fill is an error and every fill before it is a non-empty chunk, so no end of stream comes first. |
| `WindowAccumulator.Start` | src/main.rs:26-28 | Before the first read the buffer is empty, the timer is started at `start` and no window has been handed over, so ending here hands over none. |
| `WindowAccumulator.ChunksRead` | src/main.rs:36-40 | The loop consumes the fills up to the first empty chunk or error. Each consumed fill is a non-empty chunk. |
| `WindowAccumulator.Feed` | src/main.rs:42-50 | A chunk is appended first. If `elapsed >= target_time`, the buffer including that chunk is flushed as one window, the buffer becomes empty and the timer is reset to that reading. Otherwise nothing is flushed and the timer is unchanged. |
| `WindowAccumulator.FeedAll` | src/main.rs:36-53 | The state after the loop has consumed the chunks: windows already flushed stay as a prefix, and at most one window is added per chunk. |
| `WindowAccumulator.HandOver` | src/main.rs:46-56 | A call of `get_ts_audio(&buffer)`: the window is appended to those handed over, and its audio is the extraction from a fresh register over the window's packets. Every earlier pairing of window and audio is kept. |
| `WindowAccumulator.Finish` | src/main.rs:55-58 | The end-of-stream flush adds one window exactly when the buffer is non-empty, and that window is the whole buffer. |
| `WindowAccumulator.RunYt` | src/main.rs:26-58 | Starts with an empty buffer, the timer at `start` and a 10 s window. Returns the sequence of buffers handed to `get_ts_audio` and each call's result, computed with a fresh register. A `fill_buf` error ends the run without the final flush. An immediately empty source yields zero windows. |
| `WindowAccumulator.FeedAllKeepsBytes` | src/main.rs:43-49 | All windows flushed so far, followed by the current buffer, are exactly the bytes read, in order. The windows already flushed are never changed. |
| `WindowAccumulator.NoByteLostOrDuplicated` | src/main.rs:36-58 | On a clean end of stream, the windows handed to `get_ts_audio`, including the final one, concatenate to exactly the chunks read, in arrival order. |
| `WindowAccumulator.ReadErrorDropsOnlyBuffer` | src/main.rs:36-53 | When a read fails, the windows already flushed followed by the buffer are the bytes read. Only the buffered bytes are lost. |
| `WindowAccumulator.WindowsNonEmpty` | src/main.rs:38-58 | No window handed to `get_ts_audio` is empty, whether flushed in the loop or at the end. |
| `WindowAccumulator.FlushesAreSpaced` | src/main.rs:45-48 | Each flush inside the loop comes at least `target_time` after the previous one or after the start, so n flushes advance the timer by at least n times `target_time`. |
| `WindowAccumulator.NoFlushBeforeTarget` | src/main.rs:28-50 | While every chunk arrives less than `target_time` after the last flush, nothing is flushed. The timer stays put and the buffer accumulates every chunk. |
| `WindowAccumulator.ZeroTargetFlushesEveryChunk` | src/main.rs:43-49 | With a zero window length, every chunk is flushed on its own as soon as it is read. |

## Left out

- Spawning `yt-dlp`, its arguments and `wait_timeout` (src/main.rs:13-24, 60): process management.
- `BufReader::fill_buf`/`consume` (src/main.rs:37, 52): I/O. The source is an input sequence of fill results, and an error is one of them.
- `Instant::now`/`elapsed` (src/main.rs:28, 45, 48): a wall clock. Each chunk carries one clock reading. It serves both for the `elapsed` check and for the reset, although the source reads the clock again at line 48, after `get_ts_audio` has run.
- Parsing of 188-byte packets by `mpeg2ts::TsPacketReader`: the library is not part of this model. Packets are an already-parsed datatype, and `RunYt` takes the reader over a window as a `parse` function.
- PID width: PIDs are 13-bit in the transport-stream header, but the model keeps them as `u16`, the type of `audio_pid`. The parser's bound is not used by the logic.
- The encoding of `stream_id.is_audio()`: the stream-id ranges belong to the library, so a PES packet carries only whether its stream id is an audio one.
- `get_params` and `process` (src/main.rs:65-85, 132-159): foreign calls into whisper inference, whose results are only printed.
- `get_mono_f32` (src/main.rs:128-130): a stub returning an empty float vector.
- `println!` output and the commented-out file writing (src/main.rs:122-124).
- FlushesAreSpaced: requires a positive window length. With a zero length a timestamp earlier than the last flush still flushes, because `elapsed` saturates at zero. `run_yt` uses 10 s.
