// packages/minidb/src/recovery.ts: logs whose last record a first open serves and a second one,
// of the bytes the first one kept, cuts off.
module ReopenedLog {
  import opened Wrappers
  import opened Bytes
  import opened Crc32
  import opened FrameCodec
  import opened Recovery
  import opened AsyncScan
  import opened WindowedRecovery

  /** A byte of junk, then a damaged header whose announced frame reaches past the valid frame that
      straddles the end of the first window, and no other frame. */
  ghost predicate HiddenByCut(buf: bytes, width: nat, n: nat) {
    && width > HEADER_SIZE + 1
    && width - 1 + n <= |buf| && FrameLen(buf, width - 1) == Some(n)
    && FrameLen(buf, 1).None? && Spills(buf, width - 1 + n, 1)
    && (forall p: nat :: MagicAt(buf, p) && p < width - 1 ==> p == 1)
    && (forall p: nat :: FrameLen(buf, p).Some? ==> p < width - 1 + n)
  }

  lemma NoFrameLeft(buf: bytes, segs: seq<Segment>, pos: nat)
    requires WellCut(buf, segs, pos)
    requires forall p: nat :: FrameLen(buf, p).Some? ==> p < pos
    ensures segs == if pos == |buf| then [] else [Bad(pos, |buf|)]
  {
    hide FrameLen;
  }

  /** The header makes the first open move its window, which shows the whole frame. */
  lemma FirstOpenSearch(buf: bytes, width: nat, n: nat, b: Budget)
    requires HiddenByCut(buf, width, n) && (b.Limited? ==> b.left >= 2)
    ensures WindowedResync(buf, width, Window(0, width), 1, b).0 == Found(width - 1, b.Spend().Spend())
  {
    hide FrameLen;
    NoMagicNoFrameAnywhere(buf);
    NoRoomForFrame(buf);
    var seen, later := buf[..width], buf[..width + 1];
    assert MagicAt(seen, 1);
    assert NextMagic(seen, 1) == Some(1);
    assert AfterFrame(buf, width, Window(0, width), 1) == Window(1, width);
    assert MagicAt(later, width - 1);
    assert forall p: nat :: MagicAt(later, p) ==> MagicAt(buf, p);
    assert NextMagic(later, 2) == Some(width - 1);
    assert WindowedResync(buf, width, Window(1, width), 2, b.Spend()).0 == Found(width - 1, b.Spend().Spend());
  }

  lemma FirstOpenFindsIt(buf: bytes, width: nat, n: nat, b: Budget)
    requires HiddenByCut(buf, width, n) && (b.Limited? ==> b.left >= 2)
    ensures WithoutTail(Scan(buf, width, false, 0, b)) == [Bad(0, width - 1), Good(width - 1, width - 1 + n)]
    ensures Eof(Scan(buf, width, false, 0, b), 0) == width - 1 + n
  {
    hide FrameLen, WindowedResync, WindowedSegments;
    NoMagicNoFrameAnywhere(buf);
    NoRoomForFrame(buf);
    FirstOpenSearch(buf, width, n, b);
    assert AfterFrame(buf, width, Window(0, 0), 0) == Window(0, width);
    var (s, left, v) := WindowedNext(buf, width, false, Window(0, 0), 0, b);
    FirstWindowed(buf, width, false, Window(0, 0), 0, b);
    var (t, less, u) := WindowedNext(buf, width, false, v, width - 1, left);
    FirstWindowed(buf, width, false, v, width - 1, left);
    var rest := WindowedSegments(buf, width, false, u, t.hi, less);
    WindowedWellCut(buf, width, false, u, t.hi, less);
    NoFrameLeft(buf, rest, t.hi);
    assert Scan(buf, width, false, 0, b) == [s, t] + rest;
  }

  lemma WindowShowsOneMagic(buf: bytes, cut: bytes, width: nat, n: nat)
    requires HiddenByCut(buf, width, n) && cut <= buf && |cut| == width - 1 + n
    ensures var seen := cut[..width];
            NextMagic(seen, 1) == Some(1) && NextMagic(seen, 2).None? && NextMagic(seen, width - 1).None?
  {
    hide FrameLen;
    var seen := cut[..width];
    assert forall p: nat :: MagicAt(seen, p) ==> MagicAt(buf, p);
    assert MagicAt(seen, 1);
  }

  lemma LastByteIsSteppedOver(cut: bytes, width: nat, b: Budget)
    requires HEADER_SIZE + 1 < width < |cut| && (b.Limited? ==> b.left >= 2)
    requires FrameLen(cut, 1).None? && AfterFrame(cut, width, Window(0, width), 1) == Window(0, width)
    requires var seen := cut[..width];
             NextMagic(seen, 1) == Some(1) && NextMagic(seen, 2).None? && NextMagic(seen, width - 1).None?
    ensures width - 1 in SteppedOver(cut, width, Window(0, width), 1, b)
  {
    hide FrameLen, AfterFrame, NextMagic;
    var w := Window(0, width);
    assert width - 1 in SteppedOver(cut, width, w, width - 1, b.Spend());
    assert width - 1 in SteppedOver(cut, width, w, 2, b.Spend());
  }

  /** In the cut file the header announces more than there is, so the window stays and its last
      byte is stepped over. */
  lemma SecondOpenStepsOver(buf: bytes, cut: bytes, width: nat, n: nat, b: Budget)
    requires HiddenByCut(buf, width, n) && (b.Limited? ==> b.left >= 2)
    requires cut <= buf && |cut| == width - 1 + n
    ensures FrameLen(cut, width - 1) == Some(n) && width - 1 in Steps(cut, width, 0, b)
  {
    hide FrameLen, SteppedOver, WindowedResync, AfterFrame, NextMagic, Spills;
    FrameIsLocal(cut, buf, width - 1);
    FrameIsLocal(cut, buf, 1);
    CutHeader(buf, cut, width, n);
    WindowShowsOneMagic(buf, cut, width, n);
    LastByteIsSteppedOver(cut, width, b);
    NoMagicNoFrameAnywhere(buf);
    FrameIsLocal(cut, buf, 0);
  }

  lemma CutHeader(buf: bytes, cut: bytes, width: nat, n: nat)
    requires HiddenByCut(buf, width, n) && cut <= buf && |cut| == width - 1 + n
    ensures HEADER_SIZE + CRC_SIZE <= n
    ensures AfterFrame(cut, width, Window(0, 0), 0) == Window(0, width)
    ensures AfterFrame(cut, width, Window(0, width), 1) == Window(0, width)
  {
    hide FrameLen;
    NoRoomForFrame(buf);
    assert forall lo: nat, hi: nat :: lo <= hi <= |cut| ==> cut[lo..hi] == buf[lo..hi];
    assert AnnouncedLen(cut, 1) == AnnouncedLen(buf, 1);
  }

  lemma {:induction false} CorruptIsNotReported(buf: bytes, segs: seq<Segment>, pos: nat, p: nat)
    requires WellCut(buf, segs, pos) && InCorrupt(segs, p)
    ensures forall s :: s in segs && s.Good? ==> s.lo != p
    decreases |segs|
  {
    hide FrameLen;
    var s, rest := segs[0], segs[1..];
    assert segs == [s] + rest;
    InCorruptCons(s, rest, p);
    if InCorrupt(rest, p) {
      CorruptIsLater(buf, rest, s.hi, p);
      CorruptIsNotReported(buf, rest, s.hi, p);
    } else {
      WellCutTiles(buf, rest, s.hi);
      StartsLater(buf, rest, s.hi);
    }
  }

  lemma {:induction false} StartsLater(buf: bytes, segs: seq<Segment>, pos: nat)
    requires WellCut(buf, segs, pos)
    ensures forall s :: s in segs ==> pos <= s.lo
    decreases |segs|
  {
    hide FrameLen;
    if segs != [] {
      StartsLater(buf, segs[1..], segs[0].hi);
    }
  }

  lemma FirstOpenLosesNothing(buf: bytes, width: nat, n: nat, b: Budget)
    requires HiddenByCut(buf, width, n) && (b.Limited? ==> b.left >= 2)
    ensures FrameFree(buf, Steps(buf, width, 0, b))
  {
    hide FrameLen, AllSteppedOver, WindowedSegments;
    NoMagicNoFrameAnywhere(buf);
    FirstOpenFindsIt(buf, width, n, b);
    WindowedWellCut(buf, width, false, Window(0, 0), 0, b);
    forall p: nat | p in Steps(buf, width, 0, b)
      ensures FrameLen(buf, p).None?
    {
      if FrameLen(buf, p).Some? {
        LosesWhatItStepsOver(buf, width, Window(0, 0), 0, b, p);
        CorruptBeforeTail(buf, Scan(buf, width, false, 0, b), 0, p);
      }
    }
  }

  /** The failing family: the first open serves the frame and cuts the file behind it, and the
      second open, of the very bytes the first one kept, no longer finds it. */
  lemma SecondOpenMissesIt(buf: bytes, cut: bytes, width: nat, n: nat, b: Budget)
    requires HiddenByCut(buf, width, n) && (b.Limited? ==> b.left >= 2)
    requires cut <= buf && |cut| == Eof(Scan(buf, width, false, 0, b), 0)
    ensures WithoutTail(Scan(buf, width, false, 0, b)) == [Bad(0, width - 1), Good(width - 1, |cut|)]
    ensures FrameFree(buf, Steps(buf, width, 0, b))
    ensures FrameLen(cut, width - 1) == Some(n) && |cut| == width - 1 + n
    ensures forall s :: s in Scan(cut, width, false, 0, b) && s.Good? ==> s.lo != width - 1
    ensures (forall p: nat :: FrameLen(cut, p).Some? ==> p == width - 1)
            ==> Scan(cut, width, false, 0, b) == [Bad(0, |cut|)]
  {
    hide FrameLen, AllSteppedOver, WindowedSegments;
    FirstOpenFindsIt(buf, width, n, b);
    FirstOpenLosesNothing(buf, width, n, b);
    SecondOpenStepsOver(buf, cut, width, n, b);
    var again := Scan(cut, width, false, 0, b);
    LosesWhatItStepsOver(cut, width, Window(0, 0), 0, b, width - 1);
    WindowedWellCut(cut, width, false, Window(0, 0), 0, b);
    CorruptIsNotReported(cut, again, 0, width - 1);
    if forall p: nat :: FrameLen(cut, p).Some? ==> p == width - 1 {
      ValidReports(cut, again, 0);
      NothingReported(cut, again);
    }
  }

  lemma ValidReports(buf: bytes, segs: seq<Segment>, pos: nat)
    requires WellCut(buf, segs, pos)
    ensures AllValid(buf, segs)
  {
    hide FrameLen, WellCut;
    WellCutTiles(buf, segs, pos);
  }

  lemma NothingReported(buf: bytes, segs: seq<Segment>)
    requires WellCut(buf, segs, 0) && |buf| > 0
    requires forall s :: s in segs && s.Good? ==> FrameLen(buf, s.lo).None?
    ensures segs == [Bad(0, |buf|)]
  {
    hide FrameLen;
    assert segs[0] in segs;
    assert forall s :: s in segs[1..] ==> s in segs;
  }

  /** A record with a one-byte key and a one-byte value. */
  const RECORD: Image := Image(TYPE_SET, 0, [0, 0, 0, 0, 0, 0, 0, 0], [1], [2], [])

  /** A record whose value ends in the encoded small one, which begins one byte before the end of
      the first window once a byte of junk stands in front. */
  function Outer(width: nat): Image
    requires width > HEADER_SIZE + 1
  {
    Image(TYPE_SET, 0, [0, 0, 0, 0, 0, 0, 0, 0], [], seq(width - HEADER_SIZE - 2, _ => 0) + Layout(RECORD), [])
  }

  function DamageLast(x: bytes): bytes
    requires x != []
  {
    x[..|x| - 1] + [if x[|x| - 1] == 0 then 1 else 0]
  }

  lemma OnlyTheLast(x: bytes)
    requires x != []
    ensures |DamageLast(x)| == |x| && DifferWithin(x, DamageLast(x), |x| - 1, 4)
    ensures forall lo: nat, hi: nat :: lo <= hi < |x| ==> DamageLast(x)[lo..hi] == x[lo..hi]
  {
    assert DamageLast(x)[|x| - 1] != x[|x| - 1];
  }

  /** The junk and the outer record with its last byte damaged. */
  function NestedLog(width: nat): bytes
    requires width > HEADER_SIZE + 1
  {
    DamageLast([0] + Layout(Outer(width)))
  }

  lemma OuterSizes(width: nat)
    requires width > HEADER_SIZE + 1 && width + 4 <= MAX_VAL_LEN
    ensures Fits(Outer(width)) && Fits(RECORD) && |Layout(RECORD)| == Size(RECORD) == 28
    ensures Size(Outer(width)) == |Layout(Outer(width))| == width + 30 && |Body(Outer(width))| == width + 26
    ensures Body(Outer(width)) <= Layout(Outer(width))
  {
    hide Body, Crc, CrcBytes;
    BodyParts([], 0, Outer(width));
    BodyParts([], 0, RECORD);
  }

  lemma DamagedByte(width: nat)
    requires width > HEADER_SIZE + 1 && width + 4 <= MAX_VAL_LEN
    ensures Fits(Outer(width)) && Fits(RECORD) && Size(RECORD) == 28 && Size(Outer(width)) == width + 30
    ensures var buf, whole := NestedLog(width), [0] + Layout(Outer(width));
            && |buf| == |whole| == width + 31 && buf[0] == 0
            && HasAt(buf, 1, Body(Outer(width))) && HasAt(whole, 1, Layout(Outer(width)))
            && DifferWithin(whole, buf, width + 30, 4)
  {
    hide Body, Layout, DamageLast, DifferWithin, Outer;
    var o := Outer(width);
    OuterSizes(width);
    var buf, whole := NestedLog(width), [0] + Layout(o);
    OnlyTheLast(whole);
    assert buf[0..1] == whole[0..1];
    assert buf[0] == buf[0..1][0];
    assert whole[1..1 + |Layout(o)|] == Layout(o);
    assert whole[1..1 + |Body(o)|] == Body(o);
  }

  lemma NestedParts(width: nat)
    requires width > HEADER_SIZE + 1 && width + 4 <= MAX_VAL_LEN
    ensures var buf := NestedLog(width);
            && |buf| == width + 31 && buf[0] == 0
            && HasHeader(buf, 1, Outer(width)) && HasHeader(buf, width - 1, RECORD)
            && (forall j :: HEADER_SIZE + 1 <= j < width - 1 ==> buf[j] == 0)
            && FrameLen(buf, width - 1) == Some(28)
  {
    hide FrameLen, Layout, Body, HasHeader, ReadFrameAt, Record, ImageAt, DifferWithin, NestedLog;
    var o, buf := Outer(width), NestedLog(width);
    DamagedByte(width);
    BodyParts(buf, 1, o);
    BodyParts(buf, 1, RECORD);
    var v := buf[HEADER_SIZE + 1..HEADER_SIZE + 1 + |o.value|];
    assert v == o.value;
    assert forall j :: HEADER_SIZE + 1 <= j < width - 1 ==> buf[j] == v[j - HEADER_SIZE - 1];
    assert buf[width - 1..width + 27] == v[width - HEADER_SIZE - 2..];
    ReadsLayout(buf, width - 1, RECORD);
    LayoutParts(buf, width - 1, RECORD);
  }

  lemma DamagedOuter(width: nat)
    requires width > HEADER_SIZE + 1 && width + 4 <= MAX_VAL_LEN
    ensures FrameLen(NestedLog(width), 1).None?
  {
    hide FrameLen, Layout, Body, ImageAt, Record, FrameAt, NestedLog, Outer;
    var buf, whole := NestedLog(width), [0] + Layout(Outer(width));
    DamagedByte(width);
    ReadsLayout(whole, 1, Outer(width));
    DamageDetected(whole, buf, 1, width + 30);
  }

  /** The magic does not stand by chance in the length of the outer value. */
  predicate PlainLength(width: nat) {
    NextMagic(LE(width + 4, 4), 0).None?
  }

  lemma NoMagicInHeader(buf: bytes, width: nat, p: nat)
    requires width > HEADER_SIZE + 1 && PlainLength(width) && 1 < p <= HEADER_SIZE
    requires HasHeader(buf, 1, Outer(width))
    requires HEADER_SIZE + 1 < |buf| && buf[HEADER_SIZE + 1] != 0x44
    ensures !MagicAt(buf, p)
  {
    hide Layout;
    assert |Outer(width).value| == width + 4 by {
      BodyParts([], 0, RECORD);
    }
    assert LE(0, 2) == [0, 0] && LE(0, 4) == [0, 0, 0, 0];
    assert buf[1..5] == MAGIC + [TYPE_SET, 0];
    var n := buf[7..11];
    assert forall j :: 7 <= j < 11 ==> buf[j] == n[j - 7];
    assert 7 <= p < 10 ==> !MagicAt(n, p - 7);
    assert forall j :: 5 <= j < 7 ==> buf[j] == buf[5..7][j - 5];
    assert forall j :: 11 <= j < 15 ==> buf[j] == buf[11..15][j - 11];
    assert forall j :: 15 <= j < 23 ==> buf[j] == buf[15..23][j - 15];
  }

  lemma NoMagicInRecord(buf: bytes, at: nat, p: nat)
    requires HasHeader(buf, at, RECORD) && at < p <= at + 6 && at + HEADER_SIZE <= |buf|
    ensures !MagicAt(buf, p)
  {
    assert LE(1, 2) == [1, 0] && LE(1, 4) == [1, 0, 0, 0];
    assert buf[at..at + 4] == MAGIC + [TYPE_SET, 0];
    assert buf[at + 4] == buf[at + 4..at + 6][0] && buf[at + 5] == buf[at + 4..at + 6][1];
    assert buf[at + 6] == buf[at + 6..at + 10][0];
  }

  lemma NoOtherMagic(width: nat, p: nat)
    requires width > HEADER_SIZE + 1 && width + 4 <= MAX_VAL_LEN && PlainLength(width)
    requires MagicAt(NestedLog(width), p) && p + HEADER_SIZE + CRC_SIZE <= width + 31
    ensures p == 1 || p == width - 1
  {
    hide FrameLen, Outer, NestedLog, HasHeader;
    var buf := NestedLog(width);
    NestedParts(width);
    if 1 < p <= HEADER_SIZE {
      assert HEADER_SIZE + 1 == width - 1 ==> buf[width - 1] == 0x4d by {
        RecordStart(buf, width - 1);
      }
      NoMagicInHeader(buf, width, p);
    } else if p > width - 1 {
      NoMagicInRecord(buf, width - 1, p);
    }
  }

  lemma RecordStart(buf: bytes, at: nat)
    requires HasHeader(buf, at, RECORD)
    ensures at + HEADER_SIZE <= |buf| && buf[at] == 0x4d
  {
    assert buf[at..at + 4] == MAGIC + [TYPE_SET, 0];
  }

  lemma NestedLogIsHidden(width: nat)
    requires width > HEADER_SIZE + 1 && width + 4 <= MAX_VAL_LEN && PlainLength(width)
    ensures HiddenByCut(NestedLog(width), width, 28)
    ensures forall p: nat :: FrameLen(NestedLog(width), p).Some? ==> p == width - 1
  {
    hide FrameLen, Outer, NestedLog, HasHeader;
    var buf := NestedLog(width);
    NestedParts(width);
    DamagedOuter(width);
    NoMagicNoFrameAnywhere(buf);
    NoRoomForFrame(buf);
    forall p: nat | MagicAt(buf, p) && p + HEADER_SIZE + CRC_SIZE <= width + 31
      ensures p == 1 || p == width - 1
    {
      NoOtherMagic(width, p);
    }
    OuterSpills(width);
  }

  lemma OuterSpills(width: nat)
    requires width > HEADER_SIZE + 1 && width + 4 <= MAX_VAL_LEN
    ensures Spills(NestedLog(width), width + 27, 1)
  {
    hide FrameLen, NestedLog, HasHeader, Layout;
    var buf := NestedLog(width);
    NestedParts(width);
    DamagedByte(width);
    HeaderFields(buf, 1, Outer(width));
    BodyParts(buf, 1, RECORD);
  }

  /** At every such width the first open keeps the record, and the second finds nothing and would
      cut it off. */
  lemma ReopenedLogLosesItsRecord(width: nat, b: Budget)
    requires width > HEADER_SIZE + 1 && width + 4 <= MAX_VAL_LEN && PlainLength(width)
    requires b.Limited? ==> b.left >= 2
    ensures LosesItsRecord(width, b)
  {
    hide FrameLen, NestedLog, WindowedSegments, HiddenByCut, Steps, Outer, HasHeader, PlainLength;
    var log := NestedLog(width);
    NestedParts(width);
    NestedLogIsHidden(width);
    FirstOpenFindsIt(log, width, 28, b);
    var cut := log[..width + 27];
    forall p: nat | FrameLen(cut, p).Some?
      ensures p == width - 1
    {
      FrameIsLocal(cut, log, p);
    }
    SecondOpenMissesIt(log, cut, width, 28, b);
  }

  ghost predicate LosesItsRecord(width: nat, b: Budget)
    requires width > HEADER_SIZE + 1
  {
    var log := NestedLog(width);
    |log| == width + 31
    && var cut := log[..width + 27];
    && WithoutTail(Scan(log, width, false, 0, b)) == [Bad(0, width - 1), Good(width - 1, |cut|)]
    && Eof(Scan(log, width, false, 0, b), 0) == |cut|
    && Scan(cut, width, false, 0, b) == [Bad(0, |cut|)]
    && Eof(Scan(cut, width, false, 0, b), 0) == 0
  }

  /** Among them a window of 32 bytes, and the window of four megabytes and the budget the scanner
      has. */
  lemma ReopenedLogs()
    ensures LosesItsRecord(32, Limited(0x1_0000)) && LosesItsRecord(0x40_0000, Limited(0x1_0000))
  {
    hide LosesItsRecord;
    assert LE(36, 4) == [36, 0, 0, 0] && LE(0x40_0004, 4) == [4, 0, 0x40, 0];
    ReopenedLogLosesItsRecord(32, Limited(0x1_0000));
    ReopenedLogLosesItsRecord(0x40_0000, Limited(0x1_0000));
  }
}
