// packages/minidb/src/recovery.ts on the sliding-window scanner: what an open may rely on when it
// truncates a damaged log and a later open scans it again, and exactly when it may not.
module WindowedRecovery {
  import opened Wrappers
  import opened Bytes
  import opened Crc32
  import opened FrameCodec
  import opened Recovery
  import opened AsyncScan

  /** What recovery finds: the scan from `start` with nothing read yet. */
  function Scan(buf: bytes, width: nat, strict: bool, start: nat, b: Budget): seq<Segment>
    requires width >= HEADER_SIZE
  {
    WindowedSegments(buf, width, strict, Window(start, 0), start, b)
  }

  /** The places that scan steps over in resync mode. */
  ghost function Steps(buf: bytes, width: nat, start: nat, b: Budget): set<nat>
    requires width >= HEADER_SIZE
  {
    AllSteppedOver(buf, width, false, Window(start, 0), start, b)
  }

  /** The windowed scan gives up for lack of budget at some point. */
  ghost predicate GivesUp(buf: bytes, width: nat, w: Window, pos: nat, b: Budget)
    requires width >= HEADER_SIZE
    decreases |buf| - pos
  {
    pos < |buf|
    && ((FrameLen(buf, pos).None?
         && WindowedResync(buf, width, AfterFrame(buf, width, w, pos), pos + 1, b).0 == NotFound(true))
        || (var (s, left, v) := WindowedNext(buf, width, false, w, pos, b); GivesUp(buf, width, v, s.hi, left)))
  }

  // ---- what every scan has -------------------------------------------------

  lemma FirstWindowed(buf: bytes, width: nat, strict: bool, w: Window, pos: nat, b: Budget)
    requires width >= HEADER_SIZE && pos < |buf|
    ensures var (s, left, v) := WindowedNext(buf, width, strict, w, pos, b);
            var rest := WindowedSegments(buf, width, strict, v, s.hi, left);
            && WindowedSegments(buf, width, strict, w, pos, b) == [s] + rest
            && (rest == [] <==> s.hi == |buf|)
            && (s.Bad? && rest != [] ==> rest[0].Good?)
  {
    hide FrameLen, WindowedNext;
  }

  lemma {:induction false} WindowedWellCut(buf: bytes, width: nat, strict: bool, w: Window, pos: nat, b: Budget)
    requires width >= HEADER_SIZE && pos <= |buf|
    ensures WellCut(buf, WindowedSegments(buf, width, strict, w, pos, b), pos)
    decreases |buf| - pos
  {
    hide FrameLen, WindowedNext;
    if pos < |buf| {
      var (s, left, v) := WindowedNext(buf, width, strict, w, pos, b);
      WindowedWellCut(buf, width, strict, v, s.hi, left);
      FirstWindowed(buf, width, strict, w, pos, b);
      assert ([s] + WindowedSegments(buf, width, strict, v, s.hi, left))[1..]
             == WindowedSegments(buf, width, strict, v, s.hi, left);
    }
  }

  /** With any window, in either mode and with any budget: frames and corrupt ranges cover the
      scanned bytes with no gap and no overlap, every frame reported validates where it is
      reported, and valid data ends with the last of them. */
  lemma WindowedTiles(buf: bytes, width: nat, strict: bool, w: Window, pos: nat, b: Budget)
    requires width >= HEADER_SIZE && pos <= |buf|
    ensures var segs := WindowedSegments(buf, width, strict, w, pos, b);
            var eof := Eof(segs, pos);
            && Tiles(segs, pos, |buf|) && GoodSizes(buf, segs) && AllValid(buf, segs)
            && pos <= eof <= |buf|
            && (eof == pos || exists s :: s in segs && s.Good? && s.hi == eof)
            && (forall s :: s in segs && s.Good? ==> s.hi <= eof)
  {
    WindowedWellCut(buf, width, strict, w, pos, b);
    WellCutTiles(buf, WindowedSegments(buf, width, strict, w, pos, b), pos);
    WellCutEnds(buf, WindowedSegments(buf, width, strict, w, pos, b), pos);
  }

  // ---- what is lost is what is stepped over --------------------------------

  /** The windowed search passes over exactly the valid frames that start where it steps over,
      unless it stops for lack of budget. */
  lemma {:induction false} SearchPassesOver(buf: bytes, width: nat, w: Window, scan: nat, b: Budget)
    requires width >= HEADER_SIZE && Full(buf, width, w) && scan <= |buf|
    ensures var r, places := WindowedResync(buf, width, w, scan, b).0, SteppedOver(buf, width, w, scan, b);
            var stop := if r.Found? then r.at else |buf|;
            && (forall p :: p in places ==> scan <= p < stop)
            && (r == NotFound(true)
                || forall p :: scan <= p < stop && FrameLen(buf, p).Some? ==> p in places)
    decreases |buf| - scan
  {
    hide FrameLen, AfterFrame, Covering, Full, MagicAt, WindowedResync, SteppedOver, Resync, NextMagic;
    NoMagicNoFrameAnywhere(buf);
    if scan + 1 >= |buf| {
      NearTheEnd(buf, width, w, scan, b, b);
      NoRoomForFrame(buf);
    } else {
      SearchStep(buf, width, w, scan);
      var v := Covering(buf, width, w, scan);
      match NextMagic(buf[..v.End()], scan) {
        case None =>
          EmptyWindow(buf, width, w, scan, b, b);
          if v.End() < |buf| {
            SearchPassesOver(buf, width, v, if v.End() - 1 > scan then v.End() - 1 else scan + 1, b);
          }
        case Some(m) =>
          MagicWindow(buf, width, w, scan, b, b);
          if !b.Spent() && FrameLen(buf, m).None? {
            SearchPassesOver(buf, width, AfterFrame(buf, width, v, m), m + 1, b.Spend());
          }
      }
    }
  }

  lemma NoRoomForFrame(buf: bytes)
    ensures forall p: nat :: FrameLen(buf, p).Some? ==> p + HEADER_SIZE + CRC_SIZE <= |buf|
  {
    hide Crc, ReadCrc;
  }

  lemma FirstSteps(buf: bytes, width: nat, w: Window, pos: nat, b: Budget)
    requires width >= HEADER_SIZE && pos < |buf| && Full(buf, width, w)
    ensures var (s, left, v) := WindowedNext(buf, width, false, w, pos, b);
            var u := AfterFrame(buf, width, w, pos);
            && Full(buf, width, u) && Full(buf, width, v)
            && AllSteppedOver(buf, width, false, w, pos, b)
               == (if s.Good? then {} else SteppedOver(buf, width, u, pos + 1, b))
                  + AllSteppedOver(buf, width, false, v, s.hi, left)
            && (GivesUp(buf, width, w, pos, b)
                <==> || (s.Bad? && WindowedResync(buf, width, u, pos + 1, b).0 == NotFound(true))
                     || GivesUp(buf, width, v, s.hi, left))
            && (s.Bad? ==> s.hi == var r := WindowedResync(buf, width, u, pos + 1, b).0;
                                   if r.Found? then r.at else |buf|)
  {
    hide FrameLen, AfterFrame, SteppedOver, WindowedResync, Full;
    NextKeepsWindow(buf, width, false, w, pos, b);
  }

  /** The valid frames that start inside the corrupt ranges of the windowed scan are exactly those
      that start where it steps over, up to the point where it gives up if it does. */
  lemma {:induction false} LosesWhatItStepsOver(buf: bytes, width: nat, w: Window, pos: nat, b: Budget, p: nat)
    requires width >= HEADER_SIZE && Full(buf, width, w) && pos <= |buf| && FrameLen(buf, p).Some?
    ensures var segs, places := WindowedSegments(buf, width, false, w, pos, b),
                                AllSteppedOver(buf, width, false, w, pos, b);
            && (p in places ==> InCorrupt(segs, p))
            && (InCorrupt(segs, p) && (p < Eof(segs, pos) || !GivesUp(buf, width, w, pos, b)) ==> p in places)
    decreases |buf| - pos
  {
    hide FrameLen, AfterFrame, SteppedOver, WindowedResync, Full, WindowedNext, WindowedSegments, AllSteppedOver,
      GivesUp;
    if pos < |buf| {
      var (s, left, v) := WindowedNext(buf, width, false, w, pos, b);
      var rest := WindowedSegments(buf, width, false, v, s.hi, left);
      FirstWindowed(buf, width, false, w, pos, b);
      FirstSteps(buf, width, w, pos, b);
      InCorruptCons(s, rest, p);
      LosesWhatItStepsOver(buf, width, v, s.hi, left, p);
      WindowedWellCut(buf, width, false, v, s.hi, left);
      WellCutEnds(buf, rest, s.hi);
      if s.Bad? {
        SearchPassesOver(buf, width, AfterFrame(buf, width, w, pos), pos + 1, b);
      }
    } else {
      NothingAtEnd(buf, width, w, pos, b);
    }
  }

  lemma NothingAtEnd(buf: bytes, width: nat, w: Window, pos: nat, b: Budget)
    requires width >= HEADER_SIZE && pos == |buf|
    ensures WindowedSegments(buf, width, false, w, pos, b) == []
    ensures AllSteppedOver(buf, width, false, w, pos, b) == {}
    ensures !GivesUp(buf, width, w, pos, b)
  {
  }

  /** The valid frames inside the corrupt ranges are exactly those that start at the places. */
  ghost predicate Matching(buf: bytes, segs: seq<Segment>, places: set<nat>) {
    forall p: nat :: FrameLen(buf, p).Some? ==> (p in places <==> InCorrupt(segs, p))
  }

  /** Unless it runs out of budget, the windowed scan is the one way of cutting the file into
      frames and corrupt ranges that loses exactly the valid frames at the places stepped over. */
  lemma ScanIsTheMatchingCut(buf: bytes, width: nat, w: Window, pos: nat, b: Budget, segs: seq<Segment>)
    requires width >= HEADER_SIZE && Full(buf, width, w) && pos <= |buf|
    requires !GivesUp(buf, width, w, pos, b) && WellCut(buf, segs, pos)
    ensures WindowedSegments(buf, width, false, w, pos, b) == segs
            <==> Matching(buf, segs, AllSteppedOver(buf, width, false, w, pos, b))
  {
    hide FrameLen, WindowedSegments, AllSteppedOver, GivesUp, InCorrupt, WellCut;
    forall p: nat | FrameLen(buf, p).Some?
      ensures p in AllSteppedOver(buf, width, false, w, pos, b)
              <==> InCorrupt(WindowedSegments(buf, width, false, w, pos, b), p)
    {
      LosesWhatItStepsOver(buf, width, w, pos, b, p);
    }
    WindowedWellCut(buf, width, false, w, pos, b);
    if Matching(buf, segs, AllSteppedOver(buf, width, false, w, pos, b)) {
      CutIsUnique(buf, WindowedSegments(buf, width, false, w, pos, b), segs, pos);
    }
  }

  // ---- when recovery is stable ---------------------------------------------

  lemma {:induction false} GivingUpLeavesATail(buf: bytes, width: nat, w: Window, pos: nat, b: Budget)
    requires width >= HEADER_SIZE && Full(buf, width, w) && pos <= |buf| && GivesUp(buf, width, w, pos, b)
    ensures var segs := WindowedSegments(buf, width, false, w, pos, b); segs != [] && segs[|segs| - 1].Bad?
    decreases |buf| - pos
  {
    hide FrameLen, AfterFrame, SteppedOver, WindowedResync, Full, WindowedNext, WindowedSegments, AllSteppedOver,
      GivesUp;
    if pos < |buf| {
      var (s, left, v) := WindowedNext(buf, width, false, w, pos, b);
      FirstSteps(buf, width, w, pos, b);
      FirstWindowed(buf, width, false, w, pos, b);
      if GivesUp(buf, width, v, s.hi, left) {
        GivingUpLeavesATail(buf, width, v, s.hi, left);
      }
    } else {
      NothingAtEnd(buf, width, w, pos, b);
    }
  }

  ghost predicate SameFramesAmong(buf: bytes, x: set<nat>, y: set<nat>) {
    forall p: nat :: FrameLen(buf, p).Some? ==> (p in x <==> p in y)
  }

  /** Cutting the file where valid data ends and scanning again, in resync mode with the same
      window and budget, finds the same stretches without the corrupt tail if and only if the
      second scan does not run out of budget and the two step over the same frames of the cut
      file. */
  lemma WindowedRecoveryIsStableIff(buf: bytes, cut: bytes, width: nat, start: nat, b: Budget)
    requires width >= HEADER_SIZE && start <= |buf|
    requires cut <= buf && |cut| == Eof(Scan(buf, width, false, start, b), start)
    ensures Scan(cut, width, false, start, b) == WithoutTail(Scan(buf, width, false, start, b))
            <==> && !GivesUp(cut, width, Window(start, 0), start, b)
                 && SameFramesAmong(cut, Steps(cut, width, start, b), Steps(buf, width, start, b))
  {
    hide FrameLen, WindowedSegments, AllSteppedOver, GivesUp, Eof, WithoutTail, WellCut;
    var w := Window(start, 0);
    var segs := Scan(buf, width, false, start, b);
    var kept := WithoutTail(segs);
    WindowedWellCut(buf, width, false, w, start, b);
    WellCutEnds(buf, segs, start);
    CutIsWellCut(buf, cut, segs, start);
    if GivesUp(cut, width, w, start, b) {
      GivingUpLeavesATail(cut, width, w, start, b);
    } else {
      ScanIsTheMatchingCut(cut, width, w, start, b, kept);
      forall p: nat | FrameLen(cut, p).Some?
        ensures p in Steps(buf, width, start, b) <==> InCorrupt(kept, p)
      {
        FrameIsLocal(cut, buf, p);
        LosesWhatItStepsOver(buf, width, w, start, b, p);
        NoRoomForFrame(cut);
        CorruptBeforeTail(buf, segs, start, p);
      }
    }
  }

  /** So when the first scan loses no frame, the second finds the same exactly when it does not
      run out of budget and no frame starts at a place it steps over. */
  lemma StableAfterLosingNothingIff(buf: bytes, cut: bytes, width: nat, start: nat, b: Budget)
    requires width >= HEADER_SIZE && start <= |buf|
    requires cut <= buf && |cut| == Eof(Scan(buf, width, false, start, b), start)
    requires FrameFree(buf, Steps(buf, width, start, b))
    ensures Scan(cut, width, false, start, b) == WithoutTail(Scan(buf, width, false, start, b))
            <==> && !GivesUp(cut, width, Window(start, 0), start, b)
                 && FrameFree(cut, Steps(cut, width, start, b))
  {
    hide FrameLen, WindowedSegments, AllSteppedOver, GivesUp, Eof, WithoutTail;
    WindowedRecoveryIsStableIff(buf, cut, width, start, b);
    forall p: nat | FrameLen(cut, p).Some?
      ensures p !in Steps(buf, width, start, b)
    {
      FrameIsLocal(cut, buf, p);
    }
  }

  /** After the cut the log grows again. As long as its budget lasts, a later open still begins with
      everything the first one kept if and only if, of the valid frames that start in what was
      kept, it steps over exactly those the first one lost. */
  lemma LaterOpenKeepsIff(buf: bytes, cut: bytes, later: bytes, width: nat, start: nat, b: Budget)
    requires width >= HEADER_SIZE && start <= |buf|
    requires cut <= buf && |cut| == Eof(Scan(buf, width, false, start, b), start) && cut <= later
    requires !GivesUp(later, width, Window(start, 0), start, b)
    ensures var kept := WithoutTail(Scan(buf, width, false, start, b));
            kept <= Scan(later, width, false, start, b)
            <==> forall p: nat :: p < |cut| && FrameLen(later, p).Some?
                                  ==> (p in Steps(later, width, start, b) <==> InCorrupt(kept, p))
  {
    hide FrameLen, WindowedSegments, AllSteppedOver, GivesUp, Eof, WithoutTail, WellCut, InCorrupt;
    var segs, again := Scan(buf, width, false, start, b), Scan(later, width, false, start, b);
    var kept := WithoutTail(segs);
    WindowedWellCut(buf, width, false, Window(start, 0), start, b);
    WellCutEnds(buf, segs, start);
    CutIsWellCut(buf, cut, segs, start);
    WindowedWellCut(later, width, false, Window(start, 0), start, b);
    forall p: nat | p < |cut| && FrameLen(later, p).Some?
      ensures p in Steps(later, width, start, b) <==> InCorrupt(again, p)
      ensures kept <= again ==> (InCorrupt(kept, p) <==> InCorrupt(again, p))
    {
      LosesWhatItStepsOver(later, width, Window(start, 0), start, b, p);
      if kept <= again {
        PrefixCorrupt(cut, later, kept, again, start, p);
      }
    }
    if forall p: nat :: p < |cut| && FrameLen(later, p).Some?
                        ==> (p in Steps(later, width, start, b) <==> InCorrupt(kept, p)) {
      CutIsPrefix(cut, later, kept, again, start);
    }
  }

  predicate Ample(b: Budget, n: int) {
    b.Limited? ==> b.left >= n
  }

  lemma {:induction false} AmpleSearch(buf: bytes, width: nat, w: Window, scan: nat, b: Budget)
    requires width >= HEADER_SIZE && Ample(b, |buf| - scan + 1)
    ensures var r := WindowedResync(buf, width, w, scan, b).0;
            r != NotFound(true) && (r.Found? ==> Ample(r.left, |buf| - r.at))
    decreases |buf| - scan
  {
    hide FrameLen, AfterFrame, Covering, MagicAt, NextMagic;
    if scan + 1 < |buf| {
      var v := Covering(buf, width, w, scan);
      match NextMagic(buf[..Min(v.End(), |buf|)], scan) {
        case None =>
          AmpleSearch(buf, width, v, if v.End() - 1 > scan + 1 then v.End() - 1 else scan + 1, b);
        case Some(m) =>
          AmpleSearch(buf, width, AfterFrame(buf, width, v, m), m + 1, b.Spend());
      }
    }
  }

  /** No budget, or one candidate per byte left to scan, lasts. */
  lemma {:induction false} AmpleNeverGivesUp(buf: bytes, width: nat, w: Window, pos: nat, b: Budget)
    requires width >= HEADER_SIZE && Ample(b, |buf| - pos)
    ensures !GivesUp(buf, width, w, pos, b)
    decreases |buf| - pos
  {
    hide FrameLen, AfterFrame, WindowedResync;
    if pos < |buf| {
      AmpleSearch(buf, width, AfterFrame(buf, width, w, pos), pos + 1, b);
      var (s, left, v) := WindowedNext(buf, width, false, w, pos, b);
      if s.hi < |buf| {
        AmpleNeverGivesUp(buf, width, v, s.hi, left);
      }
    }
  }

  /** Where it is stable, the second open gets the references of the first, reports no corrupt
      tail, and has nothing left to cut. */
  lemma StableReports(buf: bytes, cut: bytes, width: nat, strict: bool, start: nat, b: Budget)
    requires width >= HEADER_SIZE && start <= |buf|
    requires cut <= buf && |cut| == Eof(Scan(buf, width, strict, start, b), start)
    requires Scan(cut, width, strict, start, b) == WithoutTail(Scan(buf, width, strict, start, b))
    ensures var segs, again := Scan(buf, width, strict, start, b), Scan(cut, width, strict, start, b);
            && AllValid(buf, segs) && AllValid(cut, again)
            && Refs(cut, again) == Refs(buf, segs)
            && Ranges(again) == Ranges(WithoutTail(segs))
            && Eof(again, start) == |cut|
  {
    hide FrameLen, WindowedSegments, Refs, Frames, Ranges, WellCut, WithoutTail;
    var segs := Scan(buf, width, strict, start, b);
    WindowedTiles(buf, width, strict, Window(start, 0), start, b);
    WindowedTiles(cut, width, strict, Window(start, 0), start, b);
    WindowedWellCut(buf, width, strict, Window(start, 0), start, b);
    CutIsWellCut(buf, cut, segs, start);
    SameReports(cut, buf, WithoutTail(segs));
    TailReportsNoFrame(buf, segs);
  }

  /** In strict mode recovery is always stable. */
  lemma StrictRecoveryIsStable(buf: bytes, cut: bytes, width: nat, start: nat, b: Budget)
    requires width >= HEADER_SIZE && start <= |buf|
    requires cut <= buf && |cut| == Eof(Scan(buf, width, true, start, b), start)
    ensures Scan(cut, width, true, start, b) == WithoutTail(Scan(buf, width, true, start, b))
    ensures Eof(Scan(cut, width, true, start, b), start) == |cut|
  {
    hide Segments, WindowedSegments, Eof, WithoutTail;
    StrictScansAgree(buf, width, Window(start, 0), start, b);
    StrictScansAgree(cut, width, Window(start, 0), start, b);
    RecoveryIsStable(buf, cut, true, start, b);
  }

  /** So it is in resync mode, with any budget, when one window holds all there is to scan. */
  lemma OneWindowRecoveryIsStable(buf: bytes, cut: bytes, width: nat, start: nat, b: Budget)
    requires width >= HEADER_SIZE && start <= |buf| <= start + width
    requires cut <= buf && |cut| == Eof(Scan(buf, width, false, start, b), start)
    ensures Scan(cut, width, false, start, b) == WithoutTail(Scan(buf, width, false, start, b))
    ensures Eof(Scan(cut, width, false, start, b), start) == |cut|
  {
    hide Segments, WindowedSegments, Eof, WithoutTail;
    SmallFilesScanAlike(buf, width, start, b);
    EofIsLastFrameEnd(buf, false, start, b);
    SmallFilesScanAlike(cut, width, start, b);
    RecoveryIsStable(buf, cut, false, start, b);
  }

  /** Following a growing log in strict mode, as a refresh does: whatever its window held, the scan
      that goes on from where valid data ended completes the one before. */
  lemma StrictCatchUp(short: bytes, grown: bytes, width: nat, start: nat, b: Budget)
    requires width >= HEADER_SIZE && short <= grown && start <= |short|
    ensures var before := Scan(short, width, true, start, b);
            Scan(grown, width, true, start, b)
            == WithoutTail(before) + Scan(grown, width, true, Eof(before, start), b)
  {
    hide Segments, WindowedSegments, Eof, WithoutTail;
    StrictScansAgree(short, width, Window(start, 0), start, b);
    StrictScansAgree(grown, width, Window(start, 0), start, b);
    var eof := Eof(Segments(short, true, start, b), start);
    StrictScansAgree(grown, width, Window(eof, 0), eof, b);
    CatchUp(short, grown, true, start, b);
  }

  // ---- what makes the second scan differ -----------------------------------

  /** What is left of a window when the file ends at `end`. */
  function Crop(w: Window, end: nat): Window
    requires w.start <= end
  {
    if w.End() <= end then w else Window(w.start, end - w.start)
  }

  lemma CropCovering(buf: bytes, cut: bytes, width: nat, w: Window, at: nat)
    requires cut <= buf && at < |cut| && w.start <= |cut|
    ensures Covering(buf, width, w, at).start <= |cut|
    ensures Covering(cut, width, Crop(w, |cut|), at) == Crop(Covering(buf, width, w, at), |cut|)
  {
  }

  lemma CropSpills(buf: bytes, cut: bytes, end: nat, at: nat)
    requires cut <= buf && at + HEADER_SIZE <= |cut| && !Spills(buf, |cut|, at)
    ensures Spills(cut, Min(end, |cut|), at) <==> Spills(buf, end, at)
  {
    assert cut[at + 4..at + 6] == buf[at + 4..at + 6] && cut[at + 6..at + 10] == buf[at + 6..at + 10];
    assert cut[at + 10..at + 14] == buf[at + 10..at + 14];
  }

  /** Unless the header announces a frame that fits the file and not the cut, looking for a frame
      moves both windows alike. */
  lemma CropAfterFrame(buf: bytes, cut: bytes, width: nat, w: Window, at: nat)
    requires cut <= buf && at + HEADER_SIZE <= |cut| && w.start <= |cut|
    requires !Spills(buf, |cut|, at)
    ensures AfterFrame(buf, width, w, at).start <= |cut|
    ensures AfterFrame(cut, width, Crop(w, |cut|), at) == Crop(AfterFrame(buf, width, w, at), |cut|)
  {
    hide Spills;
    CropSpills(buf, cut, (if at < w.start || at + HEADER_SIZE > w.End() then Filled(buf, width, at) else w).End(), at);
  }

  lemma FrameDoesNotSpill(buf: bytes, end: nat, at: nat)
    requires FrameLen(buf, at).Some? && at + FrameLen(buf, at).value <= end
    ensures !Spills(buf, end, at)
  {
    hide Crc, ReadCrc;
  }

  lemma CropMagic(buf: bytes, cut: bytes, v: Window, scan: nat)
    requires cut <= buf && v.start <= |cut| && v.End() <= |buf|
    requires var r := NextMagic(buf[..v.End()], scan);
             if r.Some? then r.value + 1 < |cut| else v.End() <= |cut|
    ensures var end := Crop(v, |cut|).End();
            end <= |cut| && NextMagic(cut[..end], scan) == NextMagic(buf[..v.End()], scan)
  {
    hide NextMagic;
    var seen, end := buf[..v.End()], Crop(v, |cut|).End();
    assert cut[..end] == seen[..end];
    if NextMagic(seen, scan).Some? {
      MagicIsLocal(cut[..end], seen, scan);
    } else {
      assert seen[..end] == seen;
    }
  }

  /** One turn of the search, with the window it leaves. */
  function Turn(buf: bytes, width: nat, w: Window, scan: nat, b: Budget): (Search, Window)
    requires width >= HEADER_SIZE && scan + 1 < |buf| && Covering(buf, width, w, scan).End() <= |buf|
  {
    var v := Covering(buf, width, w, scan);
    match NextMagic(buf[..v.End()], scan)
    case None =>
      if v.End() >= |buf| then (NotFound(false), v)
      else WindowedResync(buf, width, v, if v.End() - 1 > scan + 1 then v.End() - 1 else scan + 1, b)
    case Some(m) =>
      if b.Spent() then (NotFound(true), v)
      else if FrameLen(buf, m).Some? then (Found(m, b.Spend()), AfterFrame(buf, width, v, m))
      else WindowedResync(buf, width, AfterFrame(buf, width, v, m), m + 1, b.Spend())
  }

  lemma ResyncTurns(buf: bytes, width: nat, w: Window, scan: nat, b: Budget)
    requires width >= HEADER_SIZE && scan + 1 < |buf| && Covering(buf, width, w, scan).End() <= |buf|
    ensures WindowedResync(buf, width, w, scan, b) == Turn(buf, width, w, scan, b)
  {
    hide FrameLen, AfterFrame, Covering, NextMagic;
    assert Min(Covering(buf, width, w, scan).End(), |buf|) == Covering(buf, width, w, scan).End();
  }

  /** The search goes alike in the file and in the cut that keeps the frame it finds. */
  lemma {:induction false} CropSearch(buf: bytes, cut: bytes, width: nat, w: Window, scan: nat, b: Budget)
    requires width >= HEADER_SIZE && cut <= buf && Full(buf, width, w) && w.start <= |cut|
    requires var r := WindowedResync(buf, width, w, scan, b).0;
             && r.Found? && r.at + FrameLen(buf, r.at).value <= |cut|
             && forall p: nat :: scan <= p < r.at ==> !Spills(buf, |cut|, p)
    ensures var (r, u) := WindowedResync(buf, width, w, scan, b);
            u.start <= |cut| && WindowedResync(cut, width, Crop(w, |cut|), scan, b) == (r, Crop(u, |cut|))
    decreases |buf| - scan
  {
    hide FrameLen, AfterFrame, Covering, Full, Spills, NextMagic, WindowedResync;
    if scan + 1 >= |buf| {
      NearTheEnd(buf, width, w, scan, b, b);
    } else {
      var m := WindowedResync(buf, width, w, scan, b).0.at;
      SearchStep(buf, width, w, scan);
      FrameDoesNotSpill(buf, |cut|, m);
      CropCovering(buf, cut, width, w, scan);
      var v := Covering(buf, width, w, scan);
      ResyncTurns(buf, width, w, scan, b);
      ResyncTurns(cut, width, Crop(w, |cut|), scan, b);
      CropMagic(buf, cut, v, scan);
      match NextMagic(buf[..v.End()], scan) {
        case None =>
          CropSearch(buf, cut, width, v, if v.End() - 1 > scan + 1 then v.End() - 1 else scan + 1, b);
        case Some(at) =>
          FrameIsLocal(cut, buf, at);
          CropAfterFrame(buf, cut, width, v, at);
          if FrameLen(buf, at).None? {
            CropSearch(buf, cut, width, AfterFrame(buf, width, v, at), at + 1, b.Spend());
          }
      }
    }
  }

  lemma CropNext(buf: bytes, cut: bytes, width: nat, w: Window, pos: nat, b: Budget)
    requires width >= HEADER_SIZE && cut <= buf && Full(buf, width, w) && w.start <= |cut| && pos < |cut|
    requires var s := WindowedNext(buf, width, false, w, pos, b).0;
             if s.Good? then s.hi <= |cut|
             else && s.hi < |buf| && s.hi + FrameLen(buf, s.hi).value <= |cut|
                  && forall p: nat :: s.lo <= p < s.hi ==> !Spills(buf, |cut|, p)
    ensures var (s, left, v) := WindowedNext(buf, width, false, w, pos, b);
            v.start <= |cut| && WindowedNext(cut, width, false, Crop(w, |cut|), pos, b) == (s, left, Crop(v, |cut|))
  {
    hide FrameLen, AfterFrame, WindowedResync, Full, Spills;
    FrameIsLocal(cut, buf, pos);
    if FrameLen(buf, pos).Some? {
      FrameDoesNotSpill(buf, |cut|, pos);
    }
    CropAfterFrame(buf, cut, width, w, pos);
    NextKeepsWindow(buf, width, false, w, pos, b);
    if FrameLen(buf, pos).None? {
      CropSearch(buf, cut, width, AfterFrame(buf, width, w, pos), pos + 1, b);
    }
  }

  lemma {:induction false} CropScan(buf: bytes, cut: bytes, width: nat, w: Window, pos: nat, b: Budget)
    requires width >= HEADER_SIZE && cut <= buf && Full(buf, width, w) && w.start <= |cut| && pos <= |buf|
    requires |cut| == Eof(WindowedSegments(buf, width, false, w, pos, b), pos)
    requires forall p: nat :: InCorrupt(WindowedSegments(buf, width, false, w, pos, b), p) ==> !Spills(buf, |cut|, p)
    ensures WindowedSegments(cut, width, false, Crop(w, |cut|), pos, b)
            == WithoutTail(WindowedSegments(buf, width, false, w, pos, b))
    decreases |buf| - pos
  {
    hide FrameLen, AfterFrame, WindowedResync, Full, Spills, WindowedNext, Crop, Eof, WithoutTail;
    var segs := WindowedSegments(buf, width, false, w, pos, b);
    if pos < |buf| {
      var (s, left, v) := WindowedNext(buf, width, false, w, pos, b);
      var rest := WindowedSegments(buf, width, false, v, s.hi, left);
      FirstWindowed(buf, width, false, w, pos, b);
      NextKeepsWindow(buf, width, false, w, pos, b);
      forall p: nat
        ensures (s.Bad? && s.lo <= p < s.hi) || InCorrupt(rest, p) ==> !Spills(buf, |cut|, p)
      {
        InCorruptCons(s, rest, p);
      }
      if s.Good? || rest != [] {
        TailOfRest(s, rest);
        WindowedWellCut(buf, width, false, v, s.hi, left);
        WellCutEnds(buf, rest, s.hi);
        if s.Bad? {
          assert rest[0] in rest;
        }
        CropNext(buf, cut, width, w, pos, b);
        CropScan(buf, cut, width, v, s.hi, left);
      } else {
        assert [s] + rest == [s];
        OnlyATail(s);
      }
    } else {
      NothingScanned(pos);
    }
  }

  /** Only a header inside a corrupt range that announces a frame ending past the cut can make the
      second scan differ: where there is none, it finds the same, with any window and budget. */
  lemma StableUnlessAHeaderOverruns(buf: bytes, cut: bytes, width: nat, start: nat, b: Budget)
    requires width >= HEADER_SIZE && start <= |buf|
    requires cut <= buf && |cut| == Eof(Scan(buf, width, false, start, b), start)
    requires forall p: nat :: InCorrupt(Scan(buf, width, false, start, b), p) ==> !Spills(buf, |cut|, p)
    ensures Scan(cut, width, false, start, b) == WithoutTail(Scan(buf, width, false, start, b))
  {
    hide WindowedSegments, Eof, WithoutTail, Spills;
    WindowedTiles(buf, width, false, Window(start, 0), start, b);
    CropScan(buf, cut, width, Window(start, 0), start, b);
  }
}
