/** Already-parsed MPEG-2 transport-stream packets (ISO/IEC 13818-1), as the
    `mpeg2ts` packet reader hands them to `get_ts_audio`. The 188-byte wire
    format and its parsing are not part of this model: a packet is its PID and
    its (optional) decoded payload, and the reader is the sequence of results
    it returns, one per call of `read_ts_packet`. */
module TsPackets {

  /** Rust's `u8`. */
  newtype u8 = x: int | 0 <= x < 0x100

  /** Rust's `u16`, the type of `Pid::as_u16` and of the `audio_pid` register. */
  newtype u16 = x: int | 0 <= x < 0x1_0000

  type Pid = u16

  /** stream_type of ISO/IEC 13818-7 audio with ADTS transport syntax
      (`StreamType::AdtsAac`), Table 2-34 in section 2.4.4.9 of ISO/IEC 13818-1. */
  const ADTS_AAC: u8 := 0x0F

  datatype Option<+T> = None | Some(value: T)

  /** One entry of a program map table: the stream type and the PID that carries it. */
  datatype PmtEntry = PmtEntry(streamType: u8, elementaryPid: Pid)

  /** The payload kinds `get_ts_audio` distinguishes. For a PES packet only whether
      its stream_id is an audio stream id (`stream_id.is_audio()`) matters, so that
      is all the model keeps of the PES header. Every other `TsPayload` variant
      (PAT, null packets, section data, ...) is `OtherPayload`. */
  datatype Payload =
    | Pmt(table: seq<PmtEntry>)
    | Pes(audioStreamId: bool, data: seq<u8>)
    | Raw(bytes: seq<u8>)
    | OtherPayload

  datatype TsPacket = TsPacket(pid: Pid, payload: Option<Payload>)

  /** The result of one `read_ts_packet` call: `Ok(Some(packet))`, `Ok(None)` or `Err(_)`.
      Running off the end of the sequence also counts as end of stream. */
  datatype ReadOutcome = Packet(packet: TsPacket) | EndOfStream | ReadError

  /** The packets a `while let Ok(Some(packet)) = reader.read_ts_packet()` loop
      sees: every read up to, not including, the first end of stream or error. */
  function PacketPrefix(outcomes: seq<ReadOutcome>): (ps: seq<TsPacket>)
    ensures |ps| <= |outcomes|
    ensures forall k :: 0 <= k < |ps| ==> outcomes[k] == Packet(ps[k])
    ensures |ps| < |outcomes| ==> !outcomes[|ps|].Packet?
  {
    if outcomes == [] || !outcomes[0].Packet? then []
    else [outcomes[0].packet] + PacketPrefix(outcomes[1..])
  }

  /** Reads after the first end of stream or error are never looked at. */
  lemma {:induction false} PacketPrefixStopsAtFirstFailure(outcomes: seq<ReadOutcome>, stop: ReadOutcome, more: seq<ReadOutcome>)
    requires !stop.Packet?
    ensures PacketPrefix(outcomes + [stop] + more) == PacketPrefix(outcomes)
  {
    if outcomes == [] {
      assert (outcomes + [stop] + more)[0] == stop;
    } else if !outcomes[0].Packet? {
      assert (outcomes + [stop] + more)[0] == outcomes[0];
    } else {
      assert (outcomes + [stop] + more)[0] == outcomes[0];
      assert (outcomes + [stop] + more)[1..] == outcomes[1..] + [stop] + more;
      PacketPrefixStopsAtFirstFailure(outcomes[1..], stop, more);
    }
  }
}
