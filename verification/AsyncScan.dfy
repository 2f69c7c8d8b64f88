// packages/minidb/src/codec.ts: the sliding-window scanner, and exactly when it agrees with
// the positioned one. Yielding to the event loop and cancellation are not modelled.
module AsyncScan {
  import opened Wrappers
  import opened Bytes
  import opened Crc32
  import opened FrameCodec
  import opened Recovery
  import opened SyncScan

  // ---- the window as a value -----------------------------------------------

  /** Which part of the file the window holds. */
  datatype Window = Window(start: nat, len: nat) {
    function End(): nat {
      start + len
    }
  }

  function Filled(buf: bytes, width: nat, at: nat): Window {
    Window(at, if at < |buf| then Min(width, |buf| - at) else 0)
  }

  /** Nothing read yet, or everything the window has room for. */
  ghost predicate Full(buf: bytes, width: nat, w: Window) {
    w.len != 0 ==> w.start < |buf| && w == Filled(buf, width, w.start)
  }

  /** The header at pos announces a frame that fits the file but reaches past `end`. */
  predicate Spills(buf: bytes, end: nat, pos: nat) {
    && pos + HEADER_SIZE <= |buf|
    && buf[pos] == 0x4d && buf[pos + 1] == 0x44
    && Field(buf, pos + 4, 2) <= MAX_KEY_LEN
    && pos + AnnouncedLen(buf, pos) <= |buf|
    && end < pos + AnnouncedLen(buf, pos)
  }

  /** The window after a frame has been looked for at `at`. */
  function AfterFrame(buf: bytes, width: nat, w: Window, at: nat): Window {
    var w1 := if at < w.start || at + HEADER_SIZE > w.End() then Filled(buf, width, at) else w;
    if w1.start < at && Spills(buf, w1.End(), at) then Filled(buf, width, at) else w1
  }

  /** The window the magic is looked for in. */
  function Covering(buf: bytes, width: nat, w: Window, at: nat): Window {
    if at < w.start || at >= w.End() then Filled(buf, width, at) else w
  }

  // ---- what the scanner reports --------------------------------------------

  /** The search as this scanner makes it: window by window. */
  function WindowedResync(buf: bytes, width: nat, w: Window, scan: nat, b: Budget): (r: (Search, Window))
    requires width >= HEADER_SIZE
    ensures r.0.Found? ==> scan <= r.0.at && FrameLen(buf, r.0.at).Some?
    decreases |buf| - scan
  {
    if scan + 1 >= |buf| then (NotFound(false), w)
    else
      var v := Covering(buf, width, w, scan);
      match NextMagic(buf[..Min(v.End(), |buf|)], scan)
      case None =>
        if v.End() >= |buf| then (NotFound(false), v)
        else WindowedResync(buf, width, v, if v.End() - 1 > scan + 1 then v.End() - 1 else scan + 1, b)
      case Some(m) =>
        if b.Spent() then (NotFound(true), v)
        else if FrameLen(buf, m).Some? then (Found(m, b.Spend()), AfterFrame(buf, width, v, m))
        else WindowedResync(buf, width, AfterFrame(buf, width, v, m), m + 1, b.Spend())
  }

  function WindowedNext(buf: bytes, width: nat, strict: bool, w: Window, pos: nat, b: Budget)
    : (r: (Segment, Budget, Window))
    requires width >= HEADER_SIZE && pos < |buf|
    ensures r.0.lo == pos < r.0.hi <= |buf|
    ensures r.0.Good? <==> FrameLen(buf, pos).Some?
    ensures r.0.Good? ==> FrameLen(buf, pos) == Some(r.0.hi - pos) && r.1 == b
    ensures r.0.Bad? && r.0.hi < |buf| ==> FrameLen(buf, r.0.hi).Some?
  {
    var v := AfterFrame(buf, width, w, pos);
    match FrameLen(buf, pos)
    case Some(n) => (Good(pos, pos + n), b, v)
    case None =>
      if strict then (Bad(pos, |buf|), b, v)
      else
        match WindowedResync(buf, width, v, pos + 1, b)
        case (NotFound(_), u) => (Bad(pos, |buf|), b, u)
        case (Found(m, left), u) => (Bad(pos, m), left, u)
  }

  function WindowedSegments(buf: bytes, width: nat, strict: bool, w: Window, pos: nat, b: Budget): seq<Segment>
    requires width >= HEADER_SIZE
    decreases |buf| - pos
  {
    if pos >= |buf| then []
    else
      var (s, left, v) := WindowedNext(buf, width, strict, w, pos, b);
      [s] + WindowedSegments(buf, width, strict, v, s.hi, left)
  }

  /** A reference, field by field. */
  lemma RefParts(buf: bytes, pos: nat)
    requires FrameLen(buf, pos).Some?
    ensures var keyLen, valLen, metaLen := Field(buf, pos + 4, 2), Field(buf, pos + 6, 4), Field(buf, pos + 10, 4);
            var keyStart := pos + HEADER_SIZE;
            var metaStart := keyStart + keyLen + valLen;
            && FrameLen(buf, pos) == Some(HEADER_SIZE + keyLen + valLen + metaLen + CRC_SIZE)
            && RefAt(buf, pos)
               == FrameRef(buf[pos + 2], buf[keyStart..keyStart + keyLen],
                           if metaLen != 0 then Some(buf[metaStart..metaStart + metaLen]) else None,
                           ToNumber(FromInt64LE(buf[pos + 14..pos + 22])), pos, keyStart + keyLen, valLen,
                           HEADER_SIZE + keyLen + valLen + metaLen + CRC_SIZE)
  {
    hide Crc, ReadCrc, FromInt64LE, ToNumber, Field;
  }

  lemma SliceGrows(s: bytes, a: nat, b: nat, c: nat)
    requires a <= b <= c <= |s|
    ensures s[a..c] == s[a..b] + s[b..c]
  {
  }

  // ---- the scanner ---------------------------------------------------------

  datatype InWindow = Outside | Parsed(r: Option<FrameRef>)

  class Scanner {
    const file: bytes
    const size: nat
    const win: array<byte>
    var winStart: nat
    var winLen: nat

    ghost predicate Valid()
      reads this, win
    {
      && size <= |file|
      && win.Length >= HEADER_SIZE
      && winLen <= win.Length
      && (winLen > 0 ==> winStart + winLen <= size && win[..winLen] == file[winStart..winStart + winLen])
      && Full(file[..size], win.Length, Held())
    }

    ghost function Held(): Window
      reads this
    {
      Window(winStart, winLen)
    }

    constructor (file: bytes, endOffset: Option<nat>, startOffset: nat, width: nat)
      requires width >= HEADER_SIZE
      ensures Valid() && this.file == file && win.Length == width
      ensures size == if endOffset.Some? then Min(|file|, endOffset.value) else |file|
      ensures Held() == Window(startOffset, 0)
    {
      this.file := file;
      size := if endOffset.Some? then Min(|file|, endOffset.value) else |file|;
      win := new byte[width];
      winStart, winLen := startOffset, 0;
    }

    method CopyDown(from: nat, keep: nat)
      requires from + keep <= win.Length
      modifies win
      ensures win[..keep] == old(win[from..from + keep])
    {
      for k := 0 to keep
        invariant forall j :: 0 <= j < k ==> win[j] == old(win[from + j])
        invariant forall j :: k <= j < win.Length ==> win[j] == old(win[j])
      {
        win[k] := win[from + k];
      }
    }

    method ReadInto(off: nat, len: nat, at: nat)
      requires off + len <= win.Length && at + len <= |file|
      modifies win
      ensures win[..off] == old(win[..off])
      ensures win[off..off + len] == file[at..at + len]
    {
      for k := 0 to len
        invariant win[..off] == old(win[..off])
        invariant win[off..off + k] == file[at..at + k]
      {
        win[off + k] := file[at + k];
      }
    }

    /** What the window already holds from `at` on moves to its front. */
    method KeepFrom(at: nat)
      requires Valid() && at < size
      modifies this, win
      ensures winStart == at && winLen <= win.Length && winStart + winLen <= size
      ensures win[..winLen] == file[at..at + winLen]
    {
      var end := winStart + winLen;
      if winStart <= at < end {
        var keep := end - at;
        assert win[..winLen][at - winStart..] == win[at - winStart..at - winStart + keep];
        CopyDown(at - winStart, keep);
        winStart := at;
        winLen := keep;
      } else {
        winStart := at;
        winLen := 0;
      }
    }

    /** One read behind what the window holds, of some but not always all the bytes asked for. */
    method ReadMore()
      requires winLen < win.Length && winStart + winLen < size <= |file|
      requires win[..winLen] == file[winStart..winStart + winLen]
      modifies this`winLen, win
      ensures old(winLen) < winLen <= win.Length && winStart + winLen <= size
      ensures win[..winLen] == file[winStart..winStart + winLen]
    {
      var want := Min(win.Length - winLen, size - winStart - winLen);
      var bytesRead: nat :| 1 <= bytesRead <= want;
      ReadInto(winLen, bytesRead, winStart + winLen);
      SliceGrows(file, winStart, winStart + winLen, winStart + winLen + bytesRead);
      SliceGrows(win[..], 0, winLen, winLen + bytesRead);
      winLen := winLen + bytesRead;
    }

    /** Moves the window so that it starts at `at`: what it already holds from there on is kept, the
        rest is read. */
    method FillWindow(at: nat)
      requires Valid() && at < size
      modifies this, win
      ensures Valid() && Held() == Filled(file[..size], win.Length, at)
    {
      KeepFrom(at);
      while winLen < win.Length && winStart + winLen < size
        invariant winStart == at && winLen <= win.Length && winStart + winLen <= size
        invariant win[..winLen] == file[at..at + winLen]
        decreases win.Length - winLen
      {
        ReadMore();
      }
    }

    /** The checks made on a header inside the window; 0 when they fail. */
    method AnnouncedInWindow(pos: nat) returns (frameLen: nat)
      requires Valid() && winStart <= pos && pos + HEADER_SIZE <= winStart + winLen
      ensures var buf := file[..size];
              if frameLen == 0 then FrameLen(buf, pos).None? && !Spills(buf, winStart + winLen, pos)
              else && AnnouncedLen(buf, pos) == frameLen && pos + frameLen <= size
                   && buf[pos] == 0x4d && buf[pos + 1] == 0x44 && Field(buf, pos + 4, 2) <= MAX_KEY_LEN
    {
      hide Crc, ReadCrc;
      var o := pos - winStart;
      WindowHeader(file, size, win[..winLen], winStart, pos);
      var keyLen, valLen, metaLen :=
        Field(win[..winLen], o + 4, 2), Field(win[..winLen], o + 6, 4), Field(win[..winLen], o + 10, 4);
      frameLen := 0;
      if win[o] == 0x4d && win[o + 1] == 0x44 && keyLen <= MAX_KEY_LEN
         && pos + HEADER_SIZE + keyLen + valLen + metaLen + CRC_SIZE <= size {
        frameLen := HEADER_SIZE + keyLen + valLen + metaLen + CRC_SIZE;
      }
    }

    /** Whether the frame the header at pos announces, all inside the window, has its checksum. */
    method ChecksumInWindow(pos: nat, frameLen: nat, chunk: nat) returns (ok: bool)
      requires Valid() && chunk > 0 && HEADER_SIZE + CRC_SIZE <= frameLen
      requires winStart <= pos && pos + frameLen <= winStart + winLen
      ensures var buf, e := file[..size], pos + frameLen;
              ok <==> ReadCrc(buf[e - CRC_SIZE..e]) == Crc(buf[pos + 2..e - CRC_SIZE])
    {
      hide Crc, ReadCrc;
      var held, o := win[..winLen], pos - winStart;
      WindowSlice(file, size, held, winStart, pos + 2, pos + frameLen - CRC_SIZE);
      WindowSlice(file, size, held, winStart, pos + frameLen - CRC_SIZE, pos + frameLen);
      var crc := ChunkedCrc(held, o + 2, o + frameLen - CRC_SIZE, chunk);
      ok := ReadCrc(held[o + frameLen - CRC_SIZE..o + frameLen]) == crc;
    }

    /** The reference to a valid frame inside the window. */
    method RefInWindow(pos: nat) returns (r: FrameRef)
      requires Valid() && FrameLen(file[..size], pos).Some?
      requires winStart <= pos && pos + FrameLen(file[..size], pos).value <= winStart + winLen
      ensures r == RefAt(file[..size], pos)
    {
      hide Crc, ReadCrc, FromInt64LE, ToNumber, Field, Full, FrameLen, FrameAt, RefAt;
      var held, o := win[..winLen], pos - winStart;
      RefParts(file[..size], pos);
      WindowHeader(file, size, held, winStart, pos);
      var keyLen, valLen, metaLen := Field(held, o + 4, 2), Field(held, o + 6, 4), Field(held, o + 10, 4);
      var keyStart := o + HEADER_SIZE;
      var metaStart := keyStart + keyLen + valLen;
      WindowSlice(file, size, held, winStart, pos + HEADER_SIZE, pos + HEADER_SIZE + keyLen);
      WindowSlice(file, size, held, winStart, winStart + metaStart, winStart + metaStart + metaLen);
      var meta := if metaLen != 0 then Some(held[metaStart..metaStart + metaLen]) else None;
      r := FrameRef(held[o + 2], held[keyStart..keyStart + keyLen], meta, ToNumber(FromInt64LE(held[o + 14..o + 22])),
                    pos, pos + HEADER_SIZE + keyLen, valLen, HEADER_SIZE + keyLen + valLen + metaLen + CRC_SIZE);
    }

    /** Parses the frame at pos from the window alone. */
    method ParseFrameRefInWindow(pos: nat, chunk: nat) returns (r: InWindow)
      requires Valid() && chunk > 0 && winLen > 0 && winStart <= pos
      ensures r == if winStart + winLen < pos + HEADER_SIZE then Parsed(None)
                   else if Spills(file[..size], winStart + winLen, pos) then Outside
                   else Parsed(RefOrNone(file[..size], pos))
    {
      hide Crc, ReadCrc, RefAt;
      if winStart + winLen < pos + HEADER_SIZE { return Parsed(None); }
      var frameLen := AnnouncedInWindow(pos);
      if frameLen == 0 { return Parsed(None); }
      if winStart + winLen < pos + frameLen { return Outside; }
      var ok := ChecksumInWindow(pos, frameLen, chunk);
      if !ok { return Parsed(None); }
      var ref := RefInWindow(pos);
      r := Parsed(Some(ref));
    }

    /** The frame at `at`: from the window, from a window moved to it, or by position. */
    method FrameAtPosition(at: nat, chunk: nat) returns (r: Option<FrameRef>)
      requires Valid() && at < size && chunk > 0
      modifies this, win
      ensures Valid() && r == RefOrNone(file[..size], at)
      ensures Held() == AfterFrame(file[..size], win.Length, old(Held()), at)
    {
      hide FrameLen, RefAt, AnnouncedLen, Field;
      if at < winStart || at + HEADER_SIZE > winStart + winLen {
        FillWindow(at);
      }
      var p := ParseFrameRefInWindow(at, chunk);
      if p.Parsed? {
        NoRoomForHeader(file[..size], at);
        return p.r;
      }
      if at > winStart {
        FillWindow(at);
        p := ParseFrameRefInWindow(at, chunk);
        if p.Parsed? {
          NoRoomForHeader(file[..size], at);
          return p.r;
        }
      }
      r := ReadFrameRefAt(file, at, size, chunk);
    }

    /** Moves the window if it does not hold `scan`. */
    method Cover(scan: nat)
      requires Valid() && scan < size
      modifies this, win
      ensures Valid() && Held() == Covering(file[..size], win.Length, old(Held()), scan)
      ensures winStart <= scan < winStart + winLen <= size && (winLen < win.Length ==> winStart + winLen == size)
    {
      if scan < winStart || scan >= winStart + winLen {
        FillWindow(scan);
      }
    }

    /** The first magic at or after `scan` the buffer shows, bytes past the valid ones included. */
    method NextInWindow(scan: nat) returns (found: Option<nat>)
      requires Valid() && scan + 1 < size
      modifies this, win
      ensures Valid() && Held() == Covering(file[..size], win.Length, old(Held()), scan)
      ensures scan < Held().End() <= size && (found.Some? ==> scan <= found.value)
      ensures var m := NextMagic(file[..size][..Held().End()], scan);
              if found.Some? && found.value + 1 < size then m == found
              else m == None && (found.Some? ==> Held().End() == size)
    {
      hide Covering, Full, NextMagic;
      Cover(scan);
      var idx := NextMagic(win[..], scan - winStart);
      assert win[..][..winLen] == win[..winLen];
      MagicInWindow(file, size, win[..], winStart, winLen, scan);
      found := if idx.Some? then Some(winStart + idx.value) else None;
    }

    /** The resynchronisation loop. */
    method ResumeWindowed(from: nat, tried: int, maxResyncCandidates: int, chunk: nat)
      returns (resume: Option<nat>, candidates: int)
      requires Valid() && chunk > 0
      modifies this, win
      ensures Valid()
      ensures match WindowedResync(file[..size], win.Length, old(Held()), from, Limited(maxResyncCandidates - tried))
              case (Found(m, left), w) =>
                resume == Some(m) && left == Limited(maxResyncCandidates - candidates) && Held() == w
              case (NotFound(_), _) => resume == None
    {
      hide FrameLen, RefAt, AfterFrame, Covering, NextMagic;
      ghost var buf := file[..size];
      resume, candidates := None, tried;
      var scan := from;
      while scan + 1 < size
        invariant Valid() && resume == None
        invariant WindowedResync(buf, win.Length, old(Held()), from, Limited(maxResyncCandidates - tried))
                  == WindowedResync(buf, win.Length, Held(), scan, Limited(maxResyncCandidates - candidates))
        decreases size - scan
      {
        ghost var before := Held();
        var found := NextInWindow(scan);
        assert Min(Held().End(), |buf|) == Held().End();
        if found.None? {
          var end := winStart + winLen;
          if end >= size { break; }
          scan := if end - 1 > scan + 1 then end - 1 else scan + 1;
          continue;
        }
        scan := found.value;
        if scan + 1 >= size { break; }
        candidates := candidates + 1;
        if candidates - 1 >= maxResyncCandidates { break; }
        var candidate := FrameAtPosition(scan, chunk);
        if candidate.Some? {
          resume := Some(scan);
          break;
        }
        scan := scan + 1;
      }
    }

    method Scan(strict: bool, maxResyncCandidates: int, chunk: nat) returns (r: ScanResult<FrameRef>)
      requires Valid() && chunk > 0
      modifies this, win
      ensures var buf := file[..size];
              var segs := WindowedSegments(buf, win.Length, strict, old(Held()), old(winStart),
                                           Limited(maxResyncCandidates));
              && AllValid(buf, segs)
              && r == ScanResult(Refs(buf, segs), Ranges(segs), Eof(segs, old(winStart)))
    {
      hide FrameLen, FrameAt, RefAt, WindowedSegments, Frames, Ranges, Refs, WindowedResync, AfterFrame;
      hide Full, Progress, AllValid, Eof;
      ghost var buf, start := file[..size], winStart;
      var frames: seq<FrameRef> := [];
      var corruptRanges: seq<(nat, nat)> := [];
      var pos := winStart;
      var resyncCandidates := 0;
      ghost var done: seq<Segment> := [];
      ghost var all := WindowedSegments(buf, win.Length, strict, Held(), pos, Limited(maxResyncCandidates));
      WindowedFrom(buf, win.Length, strict, Held(), pos, Limited(maxResyncCandidates));
      StartProgress(buf, start, all);
      while pos < size
        invariant Valid()
        invariant Progress(buf, start, all, done, pos,
                           WindowedSegments(buf, win.Length, strict, Held(), pos,
                                            Limited(maxResyncCandidates - resyncCandidates)))
        invariant AllValid(buf, done) && frames == Refs(buf, done) && corruptRanges == Ranges(done)
        decreases size - pos
      {
        ghost var b := Limited(maxResyncCandidates - resyncCandidates);
        ghost var (s, left, w) := WindowedNext(buf, win.Length, strict, Held(), pos, b);
        WindowedFrom(buf, win.Length, strict, Held(), pos, b);
        WindowedFrom(buf, win.Length, strict, w, s.hi, left);
        Advance(buf, start, all, done, pos, s, WindowedSegments(buf, win.Length, strict, w, s.hi, left));
        done := done + [s];
        var r := FrameAtPosition(pos, chunk);
        if r.Some? {
          frames := frames + [r.value];
          RefKnowsItsLength(buf, pos);
          pos := pos + r.value.frameLen;
          continue;
        }
        if strict {
          corruptRanges := corruptRanges + [(pos, size)];
          break;
        }
        var resume;
        resume, resyncCandidates := ResumeWindowed(pos + 1, resyncCandidates, maxResyncCandidates, chunk);
        corruptRanges := corruptRanges + [(pos, if resume.None? then size else resume.value)];
        if resume.None? { break; }
        pos := resume.value;
      }
      if pos >= size {
        WindowedFrom(buf, win.Length, strict, Held(), pos, Limited(maxResyncCandidates - resyncCandidates));
        Finished(buf, start, all, done, pos);
      }
      r := ScanResult(frames, corruptRanges, pos);
    }
  }

  lemma WindowedFrom(buf: bytes, width: nat, strict: bool, w: Window, pos: nat, b: Budget)
    requires width >= HEADER_SIZE
    ensures AllValid(buf, WindowedSegments(buf, width, strict, w, pos, b))
    ensures pos >= |buf| ==> WindowedSegments(buf, width, strict, w, pos, b) == []
    ensures pos < |buf| ==>
              var (s, left, v) := WindowedNext(buf, width, strict, w, pos, b);
              WindowedSegments(buf, width, strict, w, pos, b)
              == [s] + WindowedSegments(buf, width, strict, v, s.hi, left)
  {
    hide FrameLen, WindowedNext;
    WindowedAllValid(buf, width, strict, w, pos, b);
  }

  lemma {:induction false} WindowedAllValid(buf: bytes, width: nat, strict: bool, w: Window, pos: nat, b: Budget)
    requires width >= HEADER_SIZE
    ensures AllValid(buf, WindowedSegments(buf, width, strict, w, pos, b))
    decreases |buf| - pos
  {
    hide FrameLen, WindowedNext;
    if pos < |buf| {
      var (s, left, v) := WindowedNext(buf, width, strict, w, pos, b);
      WindowedAllValid(buf, width, strict, v, s.hi, left);
    }
  }

  lemma NoRoomForHeader(buf: bytes, at: nat)
    ensures |buf| < at + HEADER_SIZE ==> RefOrNone(buf, at) == None
  {
  }

  /** A slice of the window is the slice of the file it stands for. */
  lemma WindowSlice(file: bytes, size: nat, held: bytes, start: nat, lo: nat, hi: nat)
    requires start <= lo <= hi <= start + |held| <= size <= |file|
    requires held == file[start..start + |held|]
    ensures held[lo - start..hi - start] == file[..size][lo..hi]
  {
    forall k | 0 <= k < hi - lo
      ensures held[lo - start..hi - start][k] == file[..size][lo..hi][k]
    {
      assert held[lo - start + k] == file[lo + k];
    }
  }

  /** The header fields read from the window are those of the file. */
  lemma WindowHeader(file: bytes, size: nat, held: bytes, start: nat, pos: nat)
    requires start <= pos && pos + HEADER_SIZE <= start + |held| <= size <= |file|
    requires held == file[start..start + |held|]
    ensures var o, buf := pos - start, file[..size];
            && held[o] == buf[pos] && held[o + 1] == buf[pos + 1] && held[o + 2] == buf[pos + 2]
            && Field(held, o + 4, 2) == Field(buf, pos + 4, 2)
            && Field(held, o + 6, 4) == Field(buf, pos + 6, 4)
            && Field(held, o + 10, 4) == Field(buf, pos + 10, 4)
            && held[o + 14..o + 22] == buf[pos + 14..pos + 22]
  {
    WindowSlice(file, size, held, start, pos + 4, pos + 6);
    WindowSlice(file, size, held, start, pos + 6, pos + 10);
    WindowSlice(file, size, held, start, pos + 10, pos + 14);
    WindowSlice(file, size, held, start, pos + 14, pos + 22);
  }

  /** Looking for the magic in the buffer is looking for it in the part of the file the window
      holds: stale bytes can only turn up a place too close to the end of the file to matter. */
  lemma MagicInWindow(file: bytes, size: nat, win: bytes, start: nat, len: nat, scan: nat)
    requires size <= |file| && len <= |win| && start <= scan < start + len <= size
    requires win[..len] == file[start..start + len]
    requires len < |win| ==> start + len == size
    ensures var idx := NextMagic(win, scan - start);
            var m := NextMagic(file[..size][..start + len], scan);
            if idx.Some? && start + idx.value + 1 < size then m == Some(start + idx.value) else m == None
  {
    var held := file[..size][..start + len];
    forall i: nat | scan <= i && i + 1 < start + len
      ensures MagicAt(held, i) <==> MagicAt(win, i - start)
    {
      assert held[i] == win[..len][i - start] && held[i + 1] == win[..len][i + 1 - start];
    }
    var idx, m := NextMagic(win, scan - start), NextMagic(held, scan);
    if m.Some? {
      assert MagicAt(win, m.value - start);
    }
    if idx.Some? && idx.value + 1 < len {
      assert MagicAt(held, start + idx.value);
    }
  }

  // ---- when the two scanners agree -----------------------------------------

  /** The places the search steps over: the last byte of a window that stops short of the end of
      the file, once nothing has been found up to it. Whether a magic starts there is not asked. */
  ghost function SteppedOver(buf: bytes, width: nat, w: Window, scan: nat, b: Budget): set<nat>
    requires width >= HEADER_SIZE
    decreases |buf| - scan
  {
    if scan + 1 >= |buf| then {}
    else
      var v := Covering(buf, width, w, scan);
      match NextMagic(buf[..Min(v.End(), |buf|)], scan)
      case None =>
        if v.End() >= |buf| then {}
        else if v.End() - 1 > scan then SteppedOver(buf, width, v, v.End() - 1, b)
        else {scan} + SteppedOver(buf, width, v, scan + 1, b)
      case Some(m) =>
        if b.Spent() || FrameLen(buf, m).Some? then {}
        else SteppedOver(buf, width, AfterFrame(buf, width, v, m), m + 1, b.Spend())
  }

  /** All the places a whole scan steps over. */
  ghost function AllSteppedOver(buf: bytes, width: nat, strict: bool, w: Window, pos: nat, b: Budget): set<nat>
    requires width >= HEADER_SIZE
    decreases |buf| - pos
  {
    if pos >= |buf| then {}
    else
      var (s, left, v) := WindowedNext(buf, width, strict, w, pos, b);
      (if strict || s.Good? then {} else SteppedOver(buf, width, AfterFrame(buf, width, w, pos), pos + 1, b))
      + AllSteppedOver(buf, width, strict, v, s.hi, left)
  }

  lemma FillingIsFull(buf: bytes, width: nat, w: Window, at: nat)
    requires width >= HEADER_SIZE && Full(buf, width, w)
    ensures Full(buf, width, AfterFrame(buf, width, w, at)) && Full(buf, width, Covering(buf, width, w, at))
    ensures at < |buf| ==> at < Covering(buf, width, w, at).End() <= |buf|
  {
  }

  /** One step of the search, seen on the whole file. */
  lemma SearchStep(buf: bytes, width: nat, w: Window, scan: nat)
    requires width >= HEADER_SIZE && Full(buf, width, w) && scan + 1 < |buf|
    ensures var v := Covering(buf, width, w, scan);
            && Full(buf, width, v) && scan < v.End() <= |buf|
            && match NextMagic(buf[..v.End()], scan)
               case None => NextMagic(buf, scan) == NextMagic(buf, v.End() - 1)
               case Some(m) => NextMagic(buf, scan) == Some(m) && Full(buf, width, AfterFrame(buf, width, v, m))
  {
    hide AfterFrame, Covering, Full;
    FillingIsFull(buf, width, w, scan);
    var v := Covering(buf, width, w, scan);
    var seen := buf[..v.End()];
    var m := NextMagic(seen, scan);
    var stop := if m.Some? then m.value else v.End() - 1;
    forall i: nat | scan <= i < stop
      ensures !MagicAt(buf, i)
    {
      assert MagicAt(buf, i) <==> MagicAt(seen, i);
    }
    SkipNoMagic(buf, scan, stop);
    if m.Some? {
      FillingIsFull(buf, width, v, m.value);
      assert MagicAt(buf, stop);
    }
  }

  lemma SameMagicSameSearch(buf: bytes, scan: nat, later: nat, b: Budget)
    requires scan <= later && NextMagic(buf, scan) == NextMagic(buf, later)
    ensures Resync(buf, scan, b) == Resync(buf, later, b)
  {
    hide FrameLen;
  }

  /** One turn of the search that finds nothing in its window. */
  lemma EmptyWindow(buf: bytes, width: nat, w: Window, scan: nat, b: Budget, c: Budget)
    requires width >= HEADER_SIZE && Full(buf, width, w) && scan + 1 < |buf|
    requires NextMagic(buf[..Covering(buf, width, w, scan).End()], scan).None?
    ensures var v := Covering(buf, width, w, scan);
            var next := if v.End() - 1 > scan then v.End() - 1 else scan + 1;
            if v.End() < |buf| then
              && WindowedResync(buf, width, w, scan, b).0 == WindowedResync(buf, width, v, next, b).0
              && SteppedOver(buf, width, w, scan, b)
                 == (if v.End() - 1 > scan then {} else {scan}) + SteppedOver(buf, width, v, next, b)
              && (next != scan + 1 || v.End() - 1 > scan ==> Resync(buf, scan, c) == Resync(buf, next, c))
            else
              && WindowedResync(buf, width, w, scan, b).0 == NotFound(false) == Resync(buf, scan, c)
              && SteppedOver(buf, width, w, scan, b) == {}
  {
    hide FrameLen, AfterFrame, Covering, Full;
    SearchStep(buf, width, w, scan);
    var v := Covering(buf, width, w, scan);
    assert Min(v.End(), |buf|) == v.End();
    SameMagicSameSearch(buf, scan, v.End() - 1, c);
    if v.End() < |buf| && v.End() - 1 == scan + 1 {
      assert (if v.End() - 1 > scan + 1 then v.End() - 1 else scan + 1) == v.End() - 1;
    }
  }

  /** One turn of the search that finds a magic in its window. */
  lemma MagicWindow(buf: bytes, width: nat, w: Window, scan: nat, b: Budget, c: Budget)
    requires width >= HEADER_SIZE && Full(buf, width, w) && scan + 1 < |buf|
    requires NextMagic(buf[..Covering(buf, width, w, scan).End()], scan).Some?
    ensures var v := Covering(buf, width, w, scan);
            var m := NextMagic(buf[..v.End()], scan).value;
            var u := AfterFrame(buf, width, v, m);
            && Full(buf, width, u) && scan <= m < |buf|
            && WindowedResync(buf, width, w, scan, b).0
               == (if b.Spent() then NotFound(true) else if FrameLen(buf, m).Some? then Found(m, b.Spend())
                   else WindowedResync(buf, width, u, m + 1, b.Spend()).0)
            && SteppedOver(buf, width, w, scan, b)
               == (if b.Spent() || FrameLen(buf, m).Some? then {} else SteppedOver(buf, width, u, m + 1, b.Spend()))
            && Resync(buf, scan, c)
               == (if c.Spent() then NotFound(true) else if FrameLen(buf, m).Some? then Found(m, c.Spend())
                   else Resync(buf, m + 1, c.Spend()))
  {
    hide FrameLen, AfterFrame, Covering, Full;
    SearchStep(buf, width, w, scan);
    var v := Covering(buf, width, w, scan);
    assert Min(v.End(), |buf|) == v.End();
  }

  lemma NearTheEnd(buf: bytes, width: nat, w: Window, scan: nat, b: Budget, c: Budget)
    requires width >= HEADER_SIZE && scan + 1 >= |buf|
    ensures WindowedResync(buf, width, w, scan, b).0 == NotFound(false) == Resync(buf, scan, c)
    ensures SteppedOver(buf, width, w, scan, b) == {}
  {
  }

  /** If no magic straddles a window end that is stepped over, the two searches come to the
      same, with any budget. */
  lemma {:induction false} SearchesAgree(buf: bytes, width: nat, w: Window, scan: nat, b: Budget)
    requires width >= HEADER_SIZE && Full(buf, width, w)
    requires forall p :: p in SteppedOver(buf, width, w, scan, b) ==> !MagicAt(buf, p)
    ensures WindowedResync(buf, width, w, scan, b).0 == Resync(buf, scan, b)
    decreases |buf| - scan
  {
    hide FrameLen, AfterFrame, Covering, Full, MagicAt, WindowedResync, SteppedOver, Resync;
    if scan + 1 >= |buf| {
      NearTheEnd(buf, width, w, scan, b, b);
    } else {
      SearchStep(buf, width, w, scan);
      var v := Covering(buf, width, w, scan);
      match NextMagic(buf[..v.End()], scan) {
        case None =>
          EmptyWindow(buf, width, w, scan, b, b);
          if v.End() < |buf| {
            SearchesAgree(buf, width, v, if v.End() - 1 > scan then v.End() - 1 else scan + 1, b);
            if v.End() - 1 == scan {
              SkipNoMagic(buf, scan, scan + 1);
              SameMagicSameSearch(buf, scan, scan + 1, b);
            }
          }
        case Some(m) =>
          MagicWindow(buf, width, w, scan, b, b);
          if !b.Spent() && FrameLen(buf, m).None? {
            SearchesAgree(buf, width, AfterFrame(buf, width, v, m), m + 1, b.Spend());
          }
      }
    }
  }

  /** In strict mode there is no search, and the two scanners always report the same. */
  lemma {:induction false} StrictScansAgree(buf: bytes, width: nat, w: Window, pos: nat, b: Budget)
    requires width >= HEADER_SIZE
    ensures WindowedSegments(buf, width, true, w, pos, b) == Segments(buf, true, pos, b)
    decreases |buf| - pos
  {
    hide FrameLen, AfterFrame;
    if pos < |buf| {
      var (s, left, v) := WindowedNext(buf, width, true, w, pos, b);
      StrictScansAgree(buf, width, v, s.hi, left);
    }
  }

  lemma {:induction false} SearchKeepsWindow(buf: bytes, width: nat, w: Window, scan: nat, b: Budget)
    requires width >= HEADER_SIZE && Full(buf, width, w)
    ensures Full(buf, width, WindowedResync(buf, width, w, scan, b).1)
    decreases |buf| - scan
  {
    hide FrameLen, AfterFrame, Covering, Full;
    if scan + 1 < |buf| {
      SearchStep(buf, width, w, scan);
      var v := Covering(buf, width, w, scan);
      assert Min(v.End(), |buf|) == v.End();
      match NextMagic(buf[..v.End()], scan) {
        case None =>
          if v.End() < |buf| {
            SearchKeepsWindow(buf, width, v, if v.End() - 1 > scan + 1 then v.End() - 1 else scan + 1, b);
          }
        case Some(m) =>
          if !b.Spent() && FrameLen(buf, m).None? {
            SearchKeepsWindow(buf, width, AfterFrame(buf, width, v, m), m + 1, b.Spend());
          }
      }
    }
  }

  lemma NextKeepsWindow(buf: bytes, width: nat, strict: bool, w: Window, pos: nat, b: Budget)
    requires width >= HEADER_SIZE && Full(buf, width, w) && pos < |buf|
    ensures Full(buf, width, AfterFrame(buf, width, w, pos))
    ensures Full(buf, width, WindowedNext(buf, width, strict, w, pos, b).2)
  {
    hide FrameLen, AfterFrame, Full, WindowedResync;
    FillingIsFull(buf, width, w, pos);
    SearchKeepsWindow(buf, width, AfterFrame(buf, width, w, pos), pos + 1, b);
  }

  /** In resync mode too, with any budget, if no magic straddles a window end stepped over. */
  lemma {:induction false} ScansAgreeWithoutStraddle(buf: bytes, width: nat, w: Window, pos: nat, b: Budget)
    requires width >= HEADER_SIZE && Full(buf, width, w)
    requires forall p :: p in AllSteppedOver(buf, width, false, w, pos, b) ==> !MagicAt(buf, p)
    ensures WindowedSegments(buf, width, false, w, pos, b) == Segments(buf, false, pos, b)
    decreases |buf| - pos
  {
    hide FrameLen, AfterFrame, Full, SteppedOver, WindowedResync, Resync;
    if pos < |buf| {
      var (s, left, v) := WindowedNext(buf, width, false, w, pos, b);
      NextKeepsWindow(buf, width, false, w, pos, b);
      if s.Bad? {
        SearchesAgree(buf, width, AfterFrame(buf, width, w, pos), pos + 1, b);
      }
      ScansAgreeWithoutStraddle(buf, width, v, s.hi, left);
    }
  }

  /** b allows at least what c allows. */
  ghost predicate Covers(b: Budget, c: Budget) {
    b.Unlimited? || (c.Limited? && b.left >= c.left)
  }

  ghost predicate FrameFree(buf: bytes, places: set<nat>) {
    forall p :: p in places ==> FrameLen(buf, p).None?
  }

  /** How the windowed search r and the positioned search q compare. */
  ghost predicate Compare(r: Search, q: Search, free: bool) {
    if free then (r.Found? <==> q.Found?) && (q.Found? ==> r.at == q.at && Covers(r.left, q.left))
    else q.Found? && (r.Found? ==> q.at < r.at)
  }

  /** Unless it runs out of budget, the positioned search finds exactly what the windowed one
      finds when no valid frame starts at a place stepped over, and finds a frame the windowed
      one misses otherwise. */
  lemma {:induction false} SearchesDiffer(buf: bytes, width: nat, w: Window, scan: nat, b: Budget, c: Budget)
    requires width >= HEADER_SIZE && Full(buf, width, w) && Covers(b, c)
    requires Resync(buf, scan, c) != NotFound(true)
    ensures Compare(WindowedResync(buf, width, w, scan, b).0, Resync(buf, scan, c),
                    FrameFree(buf, SteppedOver(buf, width, w, scan, b)))
    decreases |buf| - scan, 1
  {
    hide FrameLen, AfterFrame, Covering, Full, MagicAt, WindowedResync, SteppedOver, Resync;
    if scan + 1 >= |buf| {
      NearTheEnd(buf, width, w, scan, b, c);
    } else {
      SearchStep(buf, width, w, scan);
      var v := Covering(buf, width, w, scan);
      match NextMagic(buf[..v.End()], scan) {
        case None =>
          EmptyWindow(buf, width, w, scan, b, c);
          if v.End() < |buf| {
            if v.End() - 1 > scan {
              assert {} + SteppedOver(buf, width, v, v.End() - 1, b) == SteppedOver(buf, width, v, v.End() - 1, b);
              SearchesDiffer(buf, width, v, v.End() - 1, b, c);
            } else {
              SearchStepsOver(buf, width, v, scan, b, c);
              assert FrameFree(buf, {scan} + SteppedOver(buf, width, v, scan + 1, b))
                     <==> FrameLen(buf, scan).None? && FrameFree(buf, SteppedOver(buf, width, v, scan + 1, b));
            }
          }
        case Some(m) =>
          MagicWindow(buf, width, w, scan, b, c);
          if FrameLen(buf, m).None? {
            SearchesDiffer(buf, width, AfterFrame(buf, width, v, m), m + 1, b.Spend(), c.Spend());
          }
      }
    }
  }

  /** The windowed search goes on after `scan`, the positioned one looks at it. */
  lemma {:induction false} SearchStepsOver(buf: bytes, width: nat, v: Window, scan: nat, b: Budget, c: Budget)
    requires width >= HEADER_SIZE && Full(buf, width, v) && Covers(b, c) && scan + 1 < |buf|
    requires Resync(buf, scan, c) != NotFound(true)
    ensures Compare(WindowedResync(buf, width, v, scan + 1, b).0, Resync(buf, scan, c),
                    FrameLen(buf, scan).None? && FrameFree(buf, SteppedOver(buf, width, v, scan + 1, b)))
    decreases |buf| - scan, 0
  {
    hide WindowedResync, SteppedOver, Full, FrameLen, FrameFree;
    if !MagicAt(buf, scan) {
      SkipNoMagic(buf, scan, scan + 1);
      SameMagicSameSearch(buf, scan, scan + 1, c);
      NoMagicNoFrame(buf, scan);
      SearchesDiffer(buf, width, v, scan + 1, b, c);
    } else if FrameLen(buf, scan).None? {
      SearchesDiffer(buf, width, v, scan + 1, b, c.Spend());
    }
  }

  lemma NoMagicNoFrame(buf: bytes, p: nat)
    requires !MagicAt(buf, p)
    ensures FrameLen(buf, p).None?
  {
  }

  lemma SameTails(s: Segment, x: seq<Segment>, y: seq<Segment>)
    ensures [s] + x == [s] + y <==> x == y
  {
    assert ([s] + x)[1..] == x && ([s] + y)[1..] == y;
  }

  /** The windowed scan agrees with the positioned one, run with no more budget than it needs,
      if and only if no valid frame starts at a place the search steps over. */
  lemma {:induction false} ScansAgreeIff(buf: bytes, width: nat, w: Window, pos: nat, b: Budget, c: Budget)
    requires width >= HEADER_SIZE && Full(buf, width, w) && Covers(b, c)
    requires !Exhausts(buf, pos, c)
    ensures WindowedSegments(buf, width, false, w, pos, b) == Segments(buf, false, pos, c)
            <==> FrameFree(buf, AllSteppedOver(buf, width, false, w, pos, b))
    decreases |buf| - pos
  {
    hide FrameLen, AfterFrame, Full, SteppedOver, WindowedResync, Resync;
    if pos < |buf| {
      var (s, left, v) := WindowedNext(buf, width, false, w, pos, b);
      var (t, rest) := Next(buf, false, pos, c);
      var here := SteppedOver(buf, width, AfterFrame(buf, width, w, pos), pos + 1, b);
      NextKeepsWindow(buf, width, false, w, pos, b);
      if s.Bad? {
        SearchesDiffer(buf, width, AfterFrame(buf, width, w, pos), pos + 1, b, c);
      }
      var after := AllSteppedOver(buf, width, false, v, s.hi, left);
      assert AllSteppedOver(buf, width, false, w, pos, b) == (if s.Good? then {} else here) + after;
      assert FrameFree(buf, here + after) <==> FrameFree(buf, here) && FrameFree(buf, after);
      assert s == t <==> s.Good? || FrameFree(buf, here);
      assert WindowedSegments(buf, width, false, w, pos, b)
             == [s] + WindowedSegments(buf, width, false, v, s.hi, left);
      if s == t {
        if s.hi < |buf| {
          ScansAgreeIff(buf, width, v, s.hi, left, rest);
        } else {
          assert after == {};
        }
        SameTails(s, WindowedSegments(buf, width, false, v, s.hi, left), Segments(buf, false, s.hi, rest));
      } else {
        assert WindowedSegments(buf, width, false, w, pos, b)[0] != Segments(buf, false, pos, c)[0];
      }
    }
  }

  ghost predicate AtEnd(buf: bytes, w: Window) {
    w.len == 0 || w.End() == |buf|
  }

  /** A window as wide as what is left to scan always reaches the end of the file, so a search
      steps over nothing. */
  lemma StaysAtEnd(buf: bytes, width: nat, w: Window, at: nat)
    requires width >= HEADER_SIZE && at < |buf| <= at + width && AtEnd(buf, w)
    ensures AtEnd(buf, Covering(buf, width, w, at)) && AtEnd(buf, AfterFrame(buf, width, w, at))
    ensures Covering(buf, width, w, at).End() == |buf|
  {
  }

  lemma {:induction false} OneWindowStepsOverNothing(buf: bytes, width: nat, w: Window, scan: nat, b: Budget)
    requires width >= HEADER_SIZE && scan <= |buf| <= scan + width && AtEnd(buf, w)
    ensures SteppedOver(buf, width, w, scan, b) == {}
    ensures AtEnd(buf, WindowedResync(buf, width, w, scan, b).1)
    decreases |buf| - scan
  {
    hide FrameLen, Spills, Covering, AfterFrame;
    if scan + 1 < |buf| {
      var v := Covering(buf, width, w, scan);
      StaysAtEnd(buf, width, w, scan);
      var next := NextMagic(buf, scan);
      if next.Some? {
        StaysAtEnd(buf, width, v, next.value);
      }
      assert v.End() == |buf| && buf[..Min(v.End(), |buf|)] == buf;
      var m := NextMagic(buf, scan);
      if m.Some? && FrameLen(buf, m.value).None? && !b.Spent() {
        OneWindowStepsOverNothing(buf, width, AfterFrame(buf, width, v, m.value), m.value + 1, b.Spend());
      }
    }
  }

  lemma {:induction false} OneWindowScan(buf: bytes, width: nat, w: Window, pos: nat, b: Budget)
    requires width >= HEADER_SIZE && pos <= |buf| <= pos + width && AtEnd(buf, w)
    ensures AllSteppedOver(buf, width, false, w, pos, b) == {}
    decreases |buf| - pos
  {
    hide FrameLen, Spills, SteppedOver, WindowedResync;
    if pos < |buf| {
      var (s, left, v) := WindowedNext(buf, width, false, w, pos, b);
      if s.Bad? {
        OneWindowStepsOverNothing(buf, width, AfterFrame(buf, width, w, pos), pos + 1, b);
      }
      OneWindowScan(buf, width, v, s.hi, left);
    }
  }

  /** So a file that fits one window is scanned alike, with any budget. */
  lemma SmallFilesScanAlike(buf: bytes, width: nat, start: nat, b: Budget)
    requires width >= HEADER_SIZE && start <= |buf| <= start + width
    ensures WindowedSegments(buf, width, false, Window(start, 0), start, b) == Segments(buf, false, start, b)
  {
    OneWindowScan(buf, width, Window(start, 0), start, b);
    ScansAgreeWithoutStraddle(buf, width, Window(start, 0), start, b);
  }

  /** Junk up to one byte short of a window, then a frame. */
  function Straddling(i: Image, width: nat): bytes
    requires width >= HEADER_SIZE
  {
    seq(width - 1, _ => 0) + Layout(i)
  }

  lemma StraddlingParts(i: Image, width: nat)
    requires Fits(i) && width >= HEADER_SIZE
    ensures var buf := Straddling(i, width);
            && |buf| == width - 1 + Size(i)
            && FrameLen(buf, width - 1) == Some(Size(i)) && FrameLen(buf, 0).None?
            && MagicAt(buf, width - 1) && forall j: nat :: j < width - 1 ==> !MagicAt(buf, j)
  {
    hide Layout, FrameLen, HasHeader, HasPayload, ReadFrameAt, Record, ImageAt;
    var buf := Straddling(i, width);
    BodyParts(buf, width - 1, i);
    assert buf[width - 1..width - 1 + |Layout(i)|] == Layout(i);
    ReadsLayout(buf, width - 1, i);
    NoMagicNoFrameAnywhere(buf);
    assert forall j: nat :: j < width - 1 ==> buf[j] == 0;
  }

  lemma NoMagicNoFrameAnywhere(buf: bytes)
    ensures forall p :: FrameLen(buf, p).Some? ==> MagicAt(buf, p)
  {
  }

  lemma StraddleIsSteppedOver(i: Image, width: nat)
    requires Fits(i) && width >= HEADER_SIZE
    ensures width - 1 in SteppedOver(Straddling(i, width), width, Window(0, width), 1, Unlimited)
  {
    hide FrameLen, Straddling;
    var buf := Straddling(i, width);
    StraddlingParts(i, width);
    var seen := buf[..width];
    assert forall j: nat :: MagicAt(seen, j) ==> MagicAt(buf, j) && j < width - 1;
    assert NextMagic(seen, 1).None? && NextMagic(seen, width - 1).None?;
    assert width - 1 in SteppedOver(buf, width, Window(0, width), width - 1, Unlimited);
  }

  lemma {:induction false} StretchesStartLater(buf: bytes, width: nat, w: Window, pos: nat, b: Budget)
    requires width >= HEADER_SIZE
    ensures forall s :: s in WindowedSegments(buf, width, false, w, pos, b) ==> s.lo >= pos
    decreases |buf| - pos
  {
    hide FrameLen, WindowedNext;
    if pos < |buf| {
      var (s, left, v) := WindowedNext(buf, width, false, w, pos, b);
      StretchesStartLater(buf, width, v, s.hi, left);
    }
  }

  /** The windowed scan's first stretch reaches past the place stepped over. */
  lemma FirstStretchPassesStraddle(i: Image, width: nat)
    requires Fits(i) && width >= HEADER_SIZE
    ensures var buf := Straddling(i, width);
            Resync(buf, 1, Unlimited) == Found(width - 1, Unlimited)
    ensures var buf := Straddling(i, width);
            WindowedNext(buf, width, false, Window(0, 0), 0, Unlimited).0.hi >= width
  {
    hide FrameLen, Straddling, SteppedOver, WindowedResync, Spills;
    var buf := Straddling(i, width);
    StraddlingParts(i, width);
    SkipNoMagic(buf, 1, width - 1);
    assert AfterFrame(buf, width, Window(0, 0), 0) == Window(0, width);
    StraddleIsSteppedOver(i, width);
    assert !FrameFree(buf, SteppedOver(buf, width, Window(0, width), 1, Unlimited));
    SearchesDiffer(buf, width, Window(0, width), 1, Unlimited, Unlimited);
  }

  /** The shape that shows it: the positioned scan reports the frame, the windowed one does not. */
  lemma StraddlingFrameIsMissed(i: Image, width: nat)
    requires Fits(i) && width >= HEADER_SIZE
    ensures var buf := Straddling(i, width);
            && Segments(buf, false, 0, Unlimited) == [Bad(0, width - 1), Good(width - 1, |buf|)]
            && Good(width - 1, |buf|) !in WindowedSegments(buf, width, false, Window(0, 0), 0, Unlimited)
  {
    hide FrameLen, Straddling, Resync, WindowedResync, Spills, AfterFrame;
    var buf := Straddling(i, width);
    StraddlingParts(i, width);
    FirstStretchPassesStraddle(i, width);
    assert Next(buf, false, 0, Unlimited) == (Bad(0, width - 1), Unlimited);
    assert Next(buf, false, width - 1, Unlimited) == (Good(width - 1, |buf|), Unlimited);
    assert Segments(buf, false, width - 1, Unlimited) == [Good(width - 1, |buf|)];
    var (s, left, v) := WindowedNext(buf, width, false, Window(0, 0), 0, Unlimited);
    StretchesStartLater(buf, width, v, s.hi, left);
  }
}
