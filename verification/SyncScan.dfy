// packages/minidb/src/codec.ts: the in-memory parser and the positioned scanner. A file is
// the bytes it holds; a positioned read returns the bytes it asks for. Chunk sizes are
// parameters.
module SyncScan {
  import opened Wrappers
  import opened Bytes
  import opened Crc32
  import opened FrameCodec
  import opened Recovery

  /** The checksum of file[lo..hi], read in chunks. */
  method ChunkedCrc(file: bytes, lo: nat, hi: nat, chunk: nat) returns (crc: bv32)
    requires lo <= hi <= |file| && chunk > 0
    ensures crc == Crc(file[lo..hi])
  {
    hide Crc;
    crc := 0;
    var crcPos := lo;
    var crcLeft := hi - lo;
    CrcOfNothing();
    assert file[lo..lo] == [];
    while crcLeft > 0
      invariant lo <= crcPos <= hi && crcLeft == hi - crcPos
      invariant crc == Crc(file[lo..crcPos])
    {
      var len := Min(chunk, crcLeft);
      CrcStreams(file[lo..crcPos], file[crcPos..crcPos + len], 0);
      assert file[lo..crcPos + len] == file[lo..crcPos] + file[crcPos..crcPos + len];
      crc := Crc(file[crcPos..crcPos + len], crc);
      crcPos := crcPos + len;
      crcLeft := crcLeft - len;
    }
  }

  lemma CrcOfNothing()
    ensures Crc([]) == 0
  {
    XorCancels(0, ALL_ONES);
  }

  function RefOrNone(buf: bytes, pos: nat): Option<FrameRef> {
    if FrameLen(buf, pos).Some? then Some(RefAt(buf, pos)) else None
  }

  /** The checks made on a header of its own, before anything else is read. */
  method ReadHeader(file: bytes, pos: nat, size: nat) returns (header: bytes, frameLen: nat)
    requires size <= |file|
    ensures frameLen == 0 ==> FrameLen(file[..size], pos).None?
    ensures frameLen != 0 ==>
              && pos + HEADER_SIZE <= pos + frameLen <= size
              && file[pos] == 0x4d && file[pos + 1] == 0x44
              && Field(file[..size], pos + 4, 2) <= MAX_KEY_LEN
              && frameLen == AnnouncedLen(file[..size], pos)
              && header == file[pos..pos + HEADER_SIZE]
  {
    hide Crc, ReadCrc;
    header, frameLen := [], 0;
    if size < pos + HEADER_SIZE { return; }
    header := file[pos..pos + HEADER_SIZE];
    if header[0] != 0x4d || header[1] != 0x44 { return; }
    HeaderSlices(file, pos, size);
    var keyLen, valLen, metaLen := Field(header, 4, 2), Field(header, 6, 4), Field(header, 10, 4);
    if keyLen > MAX_KEY_LEN { return; }
    if size < pos + HEADER_SIZE + keyLen + valLen + metaLen + CRC_SIZE { return; }
    frameLen := HEADER_SIZE + keyLen + valLen + metaLen + CRC_SIZE;
  }

  lemma HeaderSlices(file: bytes, pos: nat, size: nat)
    requires pos + HEADER_SIZE <= size <= |file|
    ensures var header, buf := file[pos..pos + HEADER_SIZE], file[..size];
            && Field(header, 4, 2) == Field(buf, pos + 4, 2)
            && Field(header, 6, 4) == Field(buf, pos + 6, 4)
            && Field(header, 10, 4) == Field(buf, pos + 10, 4)
            && header[14..22] == buf[pos + 14..pos + 22]
            && header[2] == buf[pos + 2]
  {
    var header, buf := file[pos..pos + HEADER_SIZE], file[..size];
    assert header[4..6] == file[pos + 4..pos + 6] == buf[pos + 4..pos + 6];
    assert header[6..10] == file[pos + 6..pos + 10] == buf[pos + 6..pos + 10];
    assert header[10..14] == file[pos + 10..pos + 14] == buf[pos + 10..pos + 14];
    assert header[14..22] == file[pos + 14..pos + 22] == buf[pos + 14..pos + 22];
  }

  /** Reads header, checksum, key and meta by position; the value bytes are only checksummed. */
  method ReadFrameRefAt(file: bytes, pos: nat, size: nat, chunk: nat) returns (r: Option<FrameRef>)
    requires size <= |file| && chunk > 0
    ensures r == RefOrNone(file[..size], pos)
  {
    hide Crc, ReadCrc;
    var header, frameLen := ReadHeader(file, pos, size);
    if frameLen == 0 { return None; }
    var crc := ChunkedCrc(file, pos + 2, pos + frameLen - CRC_SIZE, chunk);
    var stored := file[pos + frameLen - CRC_SIZE..pos + frameLen];
    ghost var buf := file[..size];
    assert stored == buf[pos + frameLen - CRC_SIZE..pos + frameLen];
    assert file[pos + 2..pos + frameLen - CRC_SIZE] == buf[pos + 2..pos + frameLen - CRC_SIZE];
    if ReadCrc(stored) != crc { return None; }
    HeaderSlices(file, pos, size);
    var keyLen, valLen, metaLen := Field(header, 4, 2), Field(header, 6, 4), Field(header, 10, 4);
    var keyStart := pos + HEADER_SIZE;
    var valueOff := keyStart + keyLen;
    var metaStart := valueOff + valLen;
    var key := file[keyStart..valueOff];
    assert key == buf[keyStart..valueOff];
    var meta: Option<bytes> := None;
    if metaLen != 0 {
      meta := Some(file[metaStart..metaStart + metaLen]);
      assert file[metaStart..metaStart + metaLen] == buf[metaStart..metaStart + metaLen];
    }
    r := Some(FrameRef(header[2], key, meta, ToNumber(FromInt64LE(header[14..22])), pos, valueOff, valLen, frameLen));
  }

  /** Chunks overlap by one byte, so no magic falls between two of them. */
  method FindMagicSync(file: bytes, start: nat, size: nat, chunk: nat) returns (r: Option<nat>)
    requires size <= |file| && chunk >= 2
    ensures r == NextMagic(file[..size], start)
  {
    ghost var buf := file[..size];
    var pos := start;
    while pos < size
      invariant start <= pos
      invariant NextMagic(buf, start) == NextMagic(buf, pos)
    {
      var len := Min(chunk, size - pos);
      var idx := NextMagic(file[pos..pos + len], 0);
      assert file[pos..pos + len] == buf[pos..pos + len];
      MagicInChunk(buf, pos, len);
      if idx.Some? { return Some(pos + idx.value); }
      if len < 2 { break; }
      pos := pos + len - 1;
    }
    r := None;
  }

  /** Looking for the magic in a chunk is looking for it in the file up to the chunk's end. */
  lemma MagicInChunk(buf: bytes, pos: nat, len: nat)
    requires 0 < len && pos + len <= |buf|
    ensures var idx := NextMagic(buf[pos..pos + len], 0);
            && (idx.Some? ==> NextMagic(buf, pos) == Some(pos + idx.value))
            && (idx.None? ==> NextMagic(buf, pos) == NextMagic(buf, pos + len - 1))
  {
    var c := buf[pos..pos + len];
    var idx := NextMagic(c, 0);
    var stop := if idx.Some? then pos + idx.value else pos + len - 1;
    forall i: nat | pos <= i < stop
      ensures !MagicAt(buf, i)
    {
      assert MagicAt(buf, i) <==> MagicAt(c, i - pos);
    }
    SkipNoMagic(buf, pos, stop);
    if idx.Some? {
      assert MagicAt(buf, stop);
    }
  }

  lemma {:induction false} SkipNoMagic(buf: bytes, from: nat, stop: nat)
    requires from <= stop
    requires forall i: nat :: from <= i < stop ==> !MagicAt(buf, i)
    ensures NextMagic(buf, from) == NextMagic(buf, stop)
    decreases stop - from
  {
    if from < stop {
      SkipNoMagic(buf, from + 1, stop);
    }
  }

  // ---- progress of a scan --------------------------------------------------

  /** Of all the stretches, `done` have been reported and `rest`, from `pos` on, have not. */
  ghost predicate Progress(buf: bytes, start: nat, all: seq<Segment>, done: seq<Segment>, pos: nat,
                           rest: seq<Segment>) {
    && AllValid(buf, all)
    && all == done + rest
    && (done == [] ==> pos == start)
    && (done != [] ==> done[|done| - 1].hi == pos)
    && (done != [] && done[|done| - 1].Bad? ==> FrameLen(buf, pos).Some?)
  }

  lemma StartProgress(buf: bytes, start: nat, all: seq<Segment>)
    requires AllValid(buf, all)
    ensures Progress(buf, start, all, [], start, all)
    ensures AllValid(buf, []) && Frames(buf, []) == [] && Refs(buf, []) == [] && Ranges([]) == []
  {
    assert [] + all == all;
  }

  /** One more stretch reported. */
  lemma Advance(buf: bytes, start: nat, all: seq<Segment>, done: seq<Segment>, pos: nat,
                s: Segment, rest: seq<Segment>)
    requires Progress(buf, start, all, done, pos, [s] + rest)
    requires s.lo == pos < |buf|
    requires s.Bad? && s.hi < |buf| ==> FrameLen(buf, s.hi).Some?
    requires s.hi >= |buf| ==> rest == []
    ensures AllValid(buf, done + [s])
    ensures s.Good? || s.hi < |buf| ==> Progress(buf, start, all, done + [s], s.hi, rest)
    ensures s.Bad? && s.hi >= |buf| ==> all == done + [s] && Eof(done + [s], start) == pos
    ensures Frames(buf, done + [s]) == Frames(buf, done) + (if s.Good? then [FrameAt(buf, s.lo)] else [])
    ensures Refs(buf, done + [s]) == Refs(buf, done) + (if s.Good? then [RefAt(buf, s.lo)] else [])
    ensures Ranges(done + [s]) == Ranges(done) + (if s.Bad? then [(s.lo, s.hi)] else [])
  {
    hide FrameLen, FrameAt, RefAt;
    assert done + ([s] + rest) == (done + [s]) + rest;
    assert forall t :: t in done + [s] ==> t in all;
    FramesSnoc(buf, done, s);
    assert done + [s] + [] == done + [s];
  }

  lemma Finished(buf: bytes, start: nat, all: seq<Segment>, done: seq<Segment>, pos: nat)
    requires Progress(buf, start, all, done, pos, []) && pos >= |buf|
    ensures all == done && Eof(done, start) == pos
  {
    assert done + [] == done;
  }

  lemma SegmentsFrom(buf: bytes, strict: bool, pos: nat, b: Budget)
    ensures AllValid(buf, Segments(buf, strict, pos, b))
    ensures pos >= |buf| ==> Segments(buf, strict, pos, b) == []
    ensures pos < |buf| ==>
              var (s, left) := Next(buf, strict, pos, b);
              Segments(buf, strict, pos, b) == [s] + Segments(buf, strict, s.hi, left)
  {
    hide FrameLen, Next;
    if pos <= |buf| {
      ScanTiles(buf, strict, pos, b);
    }
  }

  // ---- the scanners --------------------------------------------------------

  /** The resynchronisation loop of the parser. */
  method ResumeInBuffer(buf: bytes, from: nat) returns (resume: Option<nat>)
    ensures match Resync(buf, from, Unlimited)
            case Found(m, _) => resume == Some(m)
            case NotFound(_) => resume == None
  {
    hide FrameLen, FrameAt;
    resume := None;
    var scan := from;
    while scan + 1 < |buf|
      invariant resume == None
      invariant Resync(buf, from, Unlimited) == Resync(buf, scan, Unlimited)
      decreases |buf| - scan
    {
      var m := NextMagic(buf, scan);
      if m.None? { break; }
      scan := m.value;
      if ReadFrameAt(buf, scan).Some? {
        resume := Some(scan);
        break;
      }
      scan := scan + 1;
    }
  }

  /** Parses a whole buffer. */
  method ParseBuffer(buf: bytes, strict: bool) returns (r: ScanResult<Frame>)
    ensures var segs := Segments(buf, strict, 0, Unlimited);
            && AllValid(buf, segs)
            && r == ScanResult(Frames(buf, segs), Ranges(segs), Eof(segs, 0))
  {
    hide FrameLen, FrameAt, Segments, Frames, Ranges, Refs, Resync;
    var frames: seq<Frame> := [];
    var corruptRanges: seq<(nat, nat)> := [];
    var pos := 0;
    ghost var done: seq<Segment> := [];
    ghost var all := Segments(buf, strict, 0, Unlimited);
    SegmentsFrom(buf, strict, 0, Unlimited);
    StartProgress(buf, 0, all);
    while pos < |buf|
      invariant Progress(buf, 0, all, done, pos, Segments(buf, strict, pos, Unlimited))
      invariant AllValid(buf, done) && frames == Frames(buf, done) && corruptRanges == Ranges(done)
      decreases |buf| - pos
    {
      NoBudgetStays(buf, pos + 1);
      ghost var s := Next(buf, strict, pos, Unlimited).0;
      SegmentsFrom(buf, strict, pos, Unlimited);
      SegmentsFrom(buf, strict, s.hi, Unlimited);
      Advance(buf, 0, all, done, pos, s, Segments(buf, strict, s.hi, Unlimited));
      done := done + [s];
      var r := ReadFrameAt(buf, pos);
      if r.Some? {
        frames := frames + [r.value.0];
        pos := pos + r.value.1;
        continue;
      }
      if strict {
        corruptRanges := corruptRanges + [(pos, |buf|)];
        break;
      }
      var resume := ResumeInBuffer(buf, pos + 1);
      corruptRanges := corruptRanges + [(pos, if resume.None? then |buf| else resume.value)];
      if resume.None? { break; }
      pos := resume.value;
    }
    if pos >= |buf| {
      SegmentsFrom(buf, strict, pos, Unlimited);
      Finished(buf, 0, all, done, pos);
    }
    r := ScanResult(frames, corruptRanges, pos);
  }

  /** The resynchronisation loop of the positioned scanner; `candidates` counts over the scan. */
  method ResumeInFile(file: bytes, from: nat, tried: int, maxResyncCandidates: int, crcChunk: nat, magicChunk: nat)
    returns (resume: Option<nat>, candidates: int)
    requires crcChunk > 0 && magicChunk >= 2
    ensures match Resync(file, from, Limited(maxResyncCandidates - tried))
            case Found(m, left) => resume == Some(m) && left == Limited(maxResyncCandidates - candidates)
            case NotFound(_) => resume == None
  {
    hide FrameLen, RefAt;
    assert file[..|file|] == file;
    resume, candidates := None, tried;
    var scan := from;
    while scan + 1 < |file|
      invariant resume == None
      invariant Resync(file, from, Limited(maxResyncCandidates - tried))
                == Resync(file, scan, Limited(maxResyncCandidates - candidates))
      decreases |file| - scan
    {
      var m := FindMagicSync(file, scan, |file|, magicChunk);
      if m.None? { break; }
      scan := m.value;
      candidates := candidates + 1;
      if candidates - 1 >= maxResyncCandidates { break; }
      var candidate := ReadFrameRefAt(file, scan, |file|, crcChunk);
      if candidate.Some? {
        resume := Some(scan);
        break;
      }
      scan := scan + 1;
    }
  }

  /** Scans an open file from startOffset, values left on disk. */
  method ScanFrameRefsFd(file: bytes, strict: bool, startOffset: nat, maxResyncCandidates: int,
                         crcChunk: nat, magicChunk: nat)
    returns (r: ScanResult<FrameRef>)
    requires crcChunk > 0 && magicChunk >= 2
    ensures var segs := Segments(file, strict, startOffset, Limited(maxResyncCandidates));
            && AllValid(file, segs)
            && r == ScanResult(Refs(file, segs), Ranges(segs), Eof(segs, startOffset))
  {
    hide FrameLen, FrameAt, RefAt, Segments, Frames, Ranges, Refs, Resync, Progress, AllValid, Eof;
    assert file[..|file|] == file;
    var frames: seq<FrameRef> := [];
    var corruptRanges: seq<(nat, nat)> := [];
    var pos := startOffset;
    var resyncCandidates := 0;
    ghost var done: seq<Segment> := [];
    ghost var all := Segments(file, strict, startOffset, Limited(maxResyncCandidates));
    SegmentsFrom(file, strict, startOffset, Limited(maxResyncCandidates));
    StartProgress(file, startOffset, all);
    while pos < |file|
      invariant Progress(file, startOffset, all, done, pos,
                         Segments(file, strict, pos, Limited(maxResyncCandidates - resyncCandidates)))
      invariant AllValid(file, done) && frames == Refs(file, done) && corruptRanges == Ranges(done)
      decreases |file| - pos
    {
      ghost var b := Limited(maxResyncCandidates - resyncCandidates);
      ghost var (s, left) := Next(file, strict, pos, b);
      SegmentsFrom(file, strict, pos, b);
      SegmentsFrom(file, strict, s.hi, left);
      Advance(file, startOffset, all, done, pos, s, Segments(file, strict, s.hi, left));
      done := done + [s];
      var r := ReadFrameRefAt(file, pos, |file|, crcChunk);
      if r.Some? {
        frames := frames + [r.value];
        RefKnowsItsLength(file, pos);
        pos := pos + r.value.frameLen;
        continue;
      }
      if strict {
        corruptRanges := corruptRanges + [(pos, |file|)];
        break;
      }
      var resume;
      resume, resyncCandidates := ResumeInFile(file, pos + 1, resyncCandidates, maxResyncCandidates, crcChunk,
                                               magicChunk);
      corruptRanges := corruptRanges + [(pos, if resume.None? then |file| else resume.value)];
      if resume.None? { break; }
      pos := resume.value;
    }
    if pos >= |file| {
      SegmentsFrom(file, strict, pos, Limited(maxResyncCandidates - resyncCandidates));
      Finished(file, startOffset, all, done, pos);
    }
    r := ScanResult(frames, corruptRanges, pos);
  }

  lemma RefKnowsItsLength(file: bytes, pos: nat)
    requires FrameLen(file, pos).Some?
    ensures RefAt(file, pos).frameLen == FrameLen(file, pos).value
  {
  }

  /** What the positioned scanner reports as a place is where the value the parser copies is. */
  lemma RefPointsAtValue(file: bytes, pos: nat)
    requires FrameLen(file, pos).Some?
    ensures var f, ref := FrameAt(file, pos), RefAt(file, pos);
            && HasAt(file, ref.valueOff, f.value) && ref.valLen == |f.value|
            && ref.typ == f.typ && ref.key == f.key && ref.meta == f.meta && ref.expireAt == f.expireAt
            && ref.frameOff == pos
  {
    hide Crc, ReadCrc;
  }

  /** The reference names the frame: its place in the file holds the value, all else is the same. */
  ghost predicate RefOf(file: bytes, f: Frame, ref: FrameRef) {
    && HasAt(file, ref.valueOff, f.value) && ref.valLen == |f.value|
    && ref.typ == f.typ && ref.key == f.key && ref.meta == f.meta && ref.expireAt == f.expireAt
  }

  lemma {:induction false} RefsNameFrames(file: bytes, segs: seq<Segment>)
    requires AllValid(file, segs)
    ensures |Frames(file, segs)| == |Refs(file, segs)|
    ensures forall k :: 0 <= k < |Frames(file, segs)| ==> RefOf(file, Frames(file, segs)[k], Refs(file, segs)[k])
  {
    hide FrameLen, FrameAt, RefAt, RefOf;
    if segs != [] {
      RefsNameFrames(file, segs[1..]);
      if segs[0].Good? {
        RefIsOfFrame(file, segs[0].lo);
      }
    }
  }

  lemma RefIsOfFrame(file: bytes, pos: nat)
    requires FrameLen(file, pos).Some?
    ensures RefOf(file, FrameAt(file, pos), RefAt(file, pos))
  {
    RefPointsAtValue(file, pos);
  }

  lemma {:induction false} StrictNeedsNoBudget(buf: bytes, pos: nat, b: Budget)
    ensures Segments(buf, true, pos, b) == Segments(buf, true, pos, Unlimited)
    decreases |buf| - pos
  {
    hide FrameLen;
    if pos < |buf| {
      StrictNeedsNoBudget(buf, Next(buf, true, pos, b).0.hi, b);
    }
  }

  /** The parser and the positioned scanner agree whenever the scanner's budget lasts: as many
      frames, each reference naming the frame the parser copied, the same ranges, the same end. */
  lemma ParserAndScannerAgree(file: bytes, strict: bool, start: nat, b: Budget)
    requires strict || !Exhausts(file, start, b)
    ensures var parsed, scanned := Segments(file, strict, start, Unlimited), Segments(file, strict, start, b);
            && AllValid(file, parsed) && AllValid(file, scanned)
            && |Frames(file, parsed)| == |Refs(file, scanned)|
            && (forall k :: 0 <= k < |Frames(file, parsed)|
                            ==> RefOf(file, Frames(file, parsed)[k], Refs(file, scanned)[k]))
            && Ranges(parsed) == Ranges(scanned) && Eof(parsed, start) == Eof(scanned, start)
  {
    hide FrameLen, FrameAt, RefAt, RefOf, Next, Frames, Refs, Ranges, Eof;
    if strict {
      StrictNeedsNoBudget(file, start, b);
    } else {
      NotExhaustedIsUnlimited(file, start, b);
    }
    SegmentsFrom(file, strict, start, b);
    RefsNameFrames(file, Segments(file, strict, start, b));
  }
}
