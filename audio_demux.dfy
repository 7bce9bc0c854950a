/** `get_ts_audio` (src/main.rs): walks transport packets, keeps an `audio_pid`
    register fed by program map tables, and collects the payload bytes of the
    packets on that PID. */
module AudioDemux {
  import opened TsPackets

  /** `k` is the index of the first ADTS-AAC entry of `table`. */
  predicate FirstAacAt(table: seq<PmtEntry>, k: int) {
    0 <= k < |table| && table[k].streamType == ADTS_AAC &&
    forall j :: 0 <= j < k ==> table[j].streamType != ADTS_AAC
  }

  /** No entry of `table` is ADTS-AAC. */
  predicate NoAacEntry(table: seq<PmtEntry>) {
    forall k :: 0 <= k < |table| ==> table[k].streamType != ADTS_AAC
  }

  /** `pmt.table.iter().find(|el| el.stream_type == StreamType::AdtsAac)`:
      the first ADTS-AAC entry in table order, if there is one. */
  function FindAdtsAac(table: seq<PmtEntry>): (r: Option<PmtEntry>)
    ensures r.None? <==> NoAacEntry(table)
    ensures r.Some? ==> exists k :: FirstAacAt(table, k) && table[k] == r.value
  {
    if table == [] then None
    else if table[0].streamType == ADTS_AAC then assert FirstAacAt(table, 0); Some(table[0])
    else
      var r := FindAdtsAac(table[1..]);
      assert r.Some? ==> exists k :: FirstAacAt(table, k) && table[k] == r.value by {
        if r.Some? {
          var k :| FirstAacAt(table[1..], k) && table[1..][k] == r.value;
          assert FirstAacAt(table, k + 1) by {
            forall j | 0 <= j < k + 1 ensures table[j].streamType != ADTS_AAC {
              if j > 0 { assert table[j] == table[1..][j - 1]; }
            }
          }
        }
      }
      r
  }

  /** True of a packet that carries a program map table with an ADTS-AAC entry,
      the only kind of packet that moves the register. */
  predicate AnnouncesAac(p: TsPacket) {
    p.payload.Some? && p.payload.value.Pmt? && FindAdtsAac(p.payload.value.table).Some?
  }

  /** The register after one packet, given its value before. */
  function NextAudioPid(audioPid: Pid, p: TsPacket): (r: Pid)
    ensures AnnouncesAac(p) ==> r == FindAdtsAac(p.payload.value.table).value.elementaryPid
    ensures !AnnouncesAac(p) ==> r == audioPid
  {
    match p.payload
    case Some(Pmt(table)) =>
      (match FindAdtsAac(table)
       case Some(el) => el.elementaryPid
       case None => audioPid)
    case _ => audioPid
  }

  /** The bytes a packet would contribute if it were on the audio PID: the data of
      a PES packet with an audio stream_id, or the bytes of a raw continuation. */
  function AudioBytes(p: TsPacket): (r: seq<u8>)
    ensures p.payload.None? || p.payload.value.Pmt? || p.payload.value.OtherPayload? ==> r == []
    ensures p.payload.Some? && p.payload.value.Pes? ==>
      r == (if p.payload.value.audioStreamId then p.payload.value.data else [])
    ensures p.payload.Some? && p.payload.value.Raw? ==> r == p.payload.value.bytes
  {
    match p.payload
    case Some(Pes(audioStreamId, data)) => if audioStreamId then data else []
    case Some(Raw(bytes)) => bytes
    case _ => []
  }

  /** The bytes appended for one packet, given the register's value when the packet
      is read (`is_audio_pid` is computed before the PMT update). */
  function Appended(audioPid: Pid, p: TsPacket): (r: seq<u8>)
    ensures p.pid != audioPid ==> r == []
    ensures p.pid == audioPid ==> r == AudioBytes(p)
  {
    if p.pid == audioPid then AudioBytes(p) else []
  }

  /** Some packet of `ps` is a PMT whose first ADTS-AAC entry names `pid`. */
  predicate NamedBy(ps: seq<TsPacket>, pid: Pid) {
    exists k :: 0 <= k < |ps| && AnnouncesAac(ps[k]) && FindAdtsAac(ps[k].payload.value.table).value.elementaryPid == pid
  }

  /** The PIDs the packets of `ps` announce, one per PMT with an ADTS-AAC entry. */
  function AnnouncedPids(ps: seq<TsPacket>): set<Pid>
    decreases |ps|
  {
    if ps == [] then {}
    else
      var last := ps[|ps| - 1];
      AnnouncedPids(ps[..|ps| - 1]) +
        (if AnnouncesAac(last) then {FindAdtsAac(last.payload.value.table).value.elementaryPid} else {})
  }

  /** The register after a run of packets: its starting value or a PID some
      packet of the run announced. */
  function AudioPidAfter(audioPid: Pid, ps: seq<TsPacket>): (r: Pid)
    ensures r == audioPid || r in AnnouncedPids(ps)
    decreases |ps|
  {
    if ps == [] then audioPid
    else NextAudioPid(AudioPidAfter(audioPid, ps[..|ps| - 1]), ps[|ps| - 1])
  }

  /** The announced PIDs are exactly those a packet of the run names. */
  lemma {:induction false} AnnouncedPidsNamed(ps: seq<TsPacket>, pid: Pid)
    ensures pid in AnnouncedPids(ps) <==> NamedBy(ps, pid)
    decreases |ps|
  {
    if ps != [] {
      var init, n := ps[..|ps| - 1], |ps| - 1;
      AnnouncedPidsNamed(init, pid);
      if pid in AnnouncedPids(ps) {
        if pid in AnnouncedPids(init) {
          var k :| 0 <= k < |init| && AnnouncesAac(init[k]) && FindAdtsAac(init[k].payload.value.table).value.elementaryPid == pid;
          assert ps[k] == init[k];
        } else {
          assert AnnouncesAac(ps[n]) && FindAdtsAac(ps[n].payload.value.table).value.elementaryPid == pid;
        }
      }
      if NamedBy(ps, pid) {
        var k :| 0 <= k < |ps| && AnnouncesAac(ps[k]) && FindAdtsAac(ps[k].payload.value.table).value.elementaryPid == pid;
        if k < n {
          assert init[k] == ps[k];
        }
      }
    }
  }

  /** The register after a run is its starting value or a PID named by one of the
      run's ADTS-AAC program map tables. */
  lemma RegisterIsAnnounced(audioPid: Pid, ps: seq<TsPacket>)
    ensures AudioPidAfter(audioPid, ps) == audioPid || NamedBy(ps, AudioPidAfter(audioPid, ps))
  {
    AnnouncedPidsNamed(ps, AudioPidAfter(audioPid, ps));
  }

  /** The bytes extracted from a run of packets, the register starting at `audioPid`:
      each packet contributes under the register value it was read with. */
  function Extracted(audioPid: Pid, ps: seq<TsPacket>): (r: seq<u8>)
    ensures |r| <= |AllAudioBytes(ps)|
    decreases |ps|
  {
    if ps == [] then []
    else Extracted(audioPid, ps[..|ps| - 1]) + Appended(AudioPidAfter(audioPid, ps[..|ps| - 1]), ps[|ps| - 1])
  }

  /** The concatenated audio bytes of every packet of `ps`, whatever its PID. */
  function AllAudioBytes(ps: seq<TsPacket>): seq<u8>
    decreases |ps|
  {
    if ps == [] then [] else AllAudioBytes(ps[..|ps| - 1]) + AudioBytes(ps[|ps| - 1])
  }

  /** The concatenated audio bytes of the packets of `ps` on one fixed PID. */
  function OnPid(pid: Pid, ps: seq<TsPacket>): seq<u8>
    decreases |ps|
  {
    if ps == [] then []
    else OnPid(pid, ps[..|ps| - 1]) + (if ps[|ps| - 1].pid == pid then AudioBytes(ps[|ps| - 1]) else [])
  }

  /** `get_ts_audio`: the register starts at 0 on every call; the loop stops at the
      first read that is not `Ok(Some(_))`. */
  method GetTsAudio(outcomes: seq<ReadOutcome>) returns (data: seq<u8>)
    ensures data == Extracted(0, PacketPrefix(outcomes))
  {
    data := [];
    var audioPid: u16 := 0;
    ghost var seen: seq<TsPacket> := [];
    var i := 0;
    while i < |outcomes| && outcomes[i].Packet?
      invariant 0 <= i <= |outcomes|
      invariant |seen| == i
      invariant forall k :: 0 <= k < i ==> outcomes[k] == Packet(seen[k])
      invariant audioPid == AudioPidAfter(0, seen)
      invariant data == Extracted(0, seen)
    {
      var packet := outcomes[i].packet;
      var pid := packet.pid;
      var isAudioPid := pid == audioPid;
      ExtractedSnoc(0, seen, packet);
      match packet.payload {
        case Some(Pmt(table)) =>
          var el := FindAdtsAac(table);
          if el.Some? {
            audioPid := el.value.elementaryPid;
          }
        case Some(Pes(audioStreamId, pesData)) =>
          if audioStreamId && isAudioPid {
            data := data + pesData;
          }
        case Some(Raw(bytes)) =>
          if isAudioPid {
            data := data + bytes;
          }
        case Some(OtherPayload) =>
        case None =>
      }
      seen := seen + [packet];
      i := i + 1;
    }
    PrefixIsSeen(outcomes, seen);
  }

  /** The packets the loop saw are exactly the reader's packet prefix. */
  lemma PrefixIsSeen(outcomes: seq<ReadOutcome>, seen: seq<TsPacket>)
    requires |seen| <= |outcomes|
    requires forall k :: 0 <= k < |seen| ==> outcomes[k] == Packet(seen[k])
    requires |seen| < |outcomes| ==> !outcomes[|seen|].Packet?
    ensures PacketPrefix(outcomes) == seen
  {
    var ps := PacketPrefix(outcomes);
    assert |ps| == |seen|;
    forall k | 0 <= k < |ps| ensures ps[k] == seen[k] {
      assert outcomes[k] == Packet(ps[k]);
    }
  }

  /** One more packet: it contributes under the register left by the packets before it. */
  lemma ExtractedSnoc(audioPid: Pid, ps: seq<TsPacket>, p: TsPacket)
    ensures AudioPidAfter(audioPid, ps + [p]) == NextAudioPid(AudioPidAfter(audioPid, ps), p)
    ensures Extracted(audioPid, ps + [p]) == Extracted(audioPid, ps) + Appended(AudioPidAfter(audioPid, ps), p)
  {
    assert (ps + [p])[..|ps|] == ps;
  }

  /** The register after a concatenation: the second run starts from the register
      the first run left behind. */
  lemma {:induction false} AudioPidAfterSplit(audioPid: Pid, a: seq<TsPacket>, b: seq<TsPacket>)
    ensures AudioPidAfter(audioPid, a + b) == AudioPidAfter(AudioPidAfter(audioPid, a), b)
    decreases |b|
  {
    if b == [] {
      assert a + b == a;
    } else {
      var b', last := b[..|b| - 1], b[|b| - 1];
      assert a + b == (a + b') + [last];
      AudioPidAfterSplit(audioPid, a, b');
      ExtractedSnoc(audioPid, a + b', last);
      ExtractedSnoc(AudioPidAfter(audioPid, a), b', last);
    }
  }

  /** Extraction of a concatenation: the first run's output followed by the second
      run's, the second starting with the register the first run left behind. */
  lemma {:induction false} ExtractedSplit(audioPid: Pid, a: seq<TsPacket>, b: seq<TsPacket>)
    ensures AudioPidAfter(audioPid, a + b) == AudioPidAfter(AudioPidAfter(audioPid, a), b)
    ensures Extracted(audioPid, a + b) == Extracted(audioPid, a) + Extracted(AudioPidAfter(audioPid, a), b)
    decreases |b|
  {
    AudioPidAfterSplit(audioPid, a, b);
    if b == [] {
      assert a + b == a;
    } else {
      var b', last := b[..|b| - 1], b[|b| - 1];
      ExtractedSplit(audioPid, a, b');
      ExtractedSplitStep(audioPid, a, b', last);
      SplitLast(a, b);
    }
  }

  /** Splitting the last packet off the second run of a concatenation. */
  lemma SplitLast(a: seq<TsPacket>, b: seq<TsPacket>)
    requires b != []
    ensures b == b[..|b| - 1] + [b[|b| - 1]]
    ensures a + b == (a + b[..|b| - 1]) + [b[|b| - 1]]
  {
  }

  /** The inductive step of `ExtractedSplit`: one more packet at the end of the
      second run. */
  lemma ExtractedSplitStep(audioPid: Pid, a: seq<TsPacket>, b: seq<TsPacket>, last: TsPacket)
    requires AudioPidAfter(audioPid, a + b) == AudioPidAfter(AudioPidAfter(audioPid, a), b)
    requires Extracted(audioPid, a + b) == Extracted(audioPid, a) + Extracted(AudioPidAfter(audioPid, a), b)
    ensures Extracted(audioPid, (a + b) + [last]) ==
      Extracted(audioPid, a) + Extracted(AudioPidAfter(audioPid, a), b + [last])
  {
    var ab, mid := a + b, AudioPidAfter(audioPid, a);
    ExtractedSnoc(audioPid, ab, last);
    ExtractedSnoc(mid, b, last);
    ConcatAssoc(Extracted(audioPid, a), Extracted(mid, b), Appended(AudioPidAfter(mid, b), last));
  }

  /** Concatenation of byte strings is associative. */
  lemma ConcatAssoc(x: seq<u8>, y: seq<u8>, z: seq<u8>)
    ensures (x + y) + z == x + (y + z)
  {
  }

  /** Only a PMT with an ADTS-AAC entry moves the register. */
  lemma {:induction false} RegisterOnlyMovedByAacPmt(audioPid: Pid, ps: seq<TsPacket>)
    requires forall k :: 0 <= k < |ps| ==> !AnnouncesAac(ps[k])
    ensures AudioPidAfter(audioPid, ps) == audioPid
    decreases |ps|
  {
    if ps != [] {
      RegisterOnlyMovedByAacPmt(audioPid, ps[..|ps| - 1]);
    }
  }

  /** With the register never moved, extraction keeps exactly the audio bytes of the
      packets on the register's starting PID. */
  lemma {:induction false} ExtractedWithoutAacPmt(audioPid: Pid, ps: seq<TsPacket>)
    requires forall k :: 0 <= k < |ps| ==> !AnnouncesAac(ps[k])
    ensures Extracted(audioPid, ps) == OnPid(audioPid, ps)
    decreases |ps|
  {
    if ps != [] {
      var init := ps[..|ps| - 1];
      ExtractedWithoutAacPmt(audioPid, init);
      RegisterOnlyMovedByAacPmt(audioPid, init);
    }
  }

  /** No PID carries audio bytes, then nothing is collected from it. */
  lemma {:induction false} OnPidEmpty(pid: Pid, ps: seq<TsPacket>)
    requires forall k :: 0 <= k < |ps| ==> ps[k].pid != pid || AudioBytes(ps[k]) == []
    ensures OnPid(pid, ps) == []
    decreases |ps|
  {
    if ps != [] {
      OnPidEmpty(pid, ps[..|ps| - 1]);
    }
  }

  /** The register starts at 0, so before any ADTS-AAC PMT only PID 0 is extracted;
      if no packet on PID 0 carries audio bytes, the result is empty. */
  lemma NoAacPmtExtractsOnlyPidZero(ps: seq<TsPacket>)
    requires forall k :: 0 <= k < |ps| ==> !AnnouncesAac(ps[k])
    ensures Extracted(0, ps) == OnPid(0, ps)
    ensures (forall k :: 0 <= k < |ps| ==> ps[k].pid != 0 || AudioBytes(ps[k]) == []) ==> Extracted(0, ps) == []
  {
    ExtractedWithoutAacPmt(0, ps);
    if forall k :: 0 <= k < |ps| ==> ps[k].pid != 0 || AudioBytes(ps[k]) == [] {
      OnPidEmpty(0, ps);
    }
  }

  /** A PMT sets the register to the elementary PID of its first ADTS-AAC entry and
      leaves it alone when there is none. */
  lemma PmtSetsRegister(audioPid: Pid, ps: seq<TsPacket>, pid: Pid, table: seq<PmtEntry>)
    ensures FindAdtsAac(table).Some? ==>
      AudioPidAfter(audioPid, ps + [TsPacket(pid, Some(Pmt(table)))]) == FindAdtsAac(table).value.elementaryPid
    ensures FindAdtsAac(table).None? ==>
      AudioPidAfter(audioPid, ps + [TsPacket(pid, Some(Pmt(table)))]) == AudioPidAfter(audioPid, ps)
  {
    assert (ps + [TsPacket(pid, Some(Pmt(table)))])[..|ps|] == ps;
  }

  /** Last write wins: once a PMT names an ADTS-AAC PID `q`, and no later packet
      announces another one, everything after it is extracted from `q` and from no
      other PID. The PMT packet itself is read under the old register. */
  lemma LastPmtWins(head: seq<TsPacket>, pmt: TsPacket, tail: seq<TsPacket>)
    requires AnnouncesAac(pmt)
    requires forall j :: 0 <= j < |tail| ==> !AnnouncesAac(tail[j])
    ensures Extracted(0, head + [pmt] + tail) ==
      Extracted(0, head) + OnPid(FindAdtsAac(pmt.payload.value.table).value.elementaryPid, tail)
  {
    var q := FindAdtsAac(pmt.payload.value.table).value.elementaryPid;
    ExtractedSnoc(0, head, pmt);
    assert AudioPidAfter(0, head + [pmt]) == q;
    assert Extracted(0, head + [pmt]) == Extracted(0, head);
    ExtractedSplit(0, head + [pmt], tail);
    ExtractedWithoutAacPmt(q, tail);
  }

  /** A packet with no payload, a PES packet without an audio stream_id, and any other
      payload kind add nothing; only a PMT can move the register. */
  lemma SilentPacket(audioPid: Pid, ps: seq<TsPacket>, p: TsPacket)
    requires p.payload.None? || p.payload.value.OtherPayload? || p.payload.value.Pmt? ||
             (p.payload.value.Pes? && !p.payload.value.audioStreamId)
    ensures Extracted(audioPid, ps + [p]) == Extracted(audioPid, ps)
    ensures !(p.payload.Some? && p.payload.value.Pmt?) ==> AudioPidAfter(audioPid, ps + [p]) == AudioPidAfter(audioPid, ps)
  {
    assert (ps + [p])[..|ps|] == ps;
  }

  /** What follows the first read error or end of stream does not change the result
      of `get_ts_audio`. */
  lemma ExtractionStopsAtFirstFailure(outcomes: seq<ReadOutcome>, stop: ReadOutcome, more: seq<ReadOutcome>)
    requires !stop.Packet?
    ensures Extracted(0, PacketPrefix(outcomes + [stop] + more)) == Extracted(0, PacketPrefix(outcomes))
  {
    PacketPrefixStopsAtFirstFailure(outcomes, stop, more);
  }

  /** The register starts at 0 rather than "unset": a lone audio PES packet on PID 0,
      with no program map table anywhere, is extracted. */
  lemma PidZeroExtractedWithoutPmt(data: seq<u8>)
    ensures Extracted(0, [TsPacket(0, Some(Pes(true, data)))]) == data
  {
    assert [TsPacket(0, Some(Pes(true, data)))][..0] == [];
  }
}
