// packages/minidb/src/codec.ts: what the parser and the positioned scanner find in a file, as one
// list of consecutive stretches; what holds of every such list, and of scanning a cut or grown file
// again. Recovery itself runs the windowed scanner: see WindowedRecovery.dfy.
module Recovery {
  import opened Wrappers
  import opened Bytes
  import opened Crc32
  import opened FrameCodec

  /** How many candidate positions resynchronisation may still validate. */
  datatype Budget = Unlimited | Limited(left: int) {
    predicate Spent() {
      Limited? && left <= 0
    }

    function Spend(): Budget {
      if Limited? then Limited(left - 1) else this
    }
  }

  /** A stretch of the file: one valid frame, or bytes given up as corrupt. */
  datatype Segment = Good(lo: nat, hi: nat) | Bad(lo: nat, hi: nat)

  /** The first place at or after `from` holding the magic. */
  function NextMagic(buf: bytes, from: nat): (r: Option<nat>)
    ensures r.Some? ==> from <= r.value && MagicAt(buf, r.value)
    ensures r.Some? ==> forall i :: from <= i < r.value ==> !MagicAt(buf, i)
    ensures r.None? ==> forall i :: from <= i ==> !MagicAt(buf, i)
    decreases |buf| - from
  {
    if from + 1 >= |buf| then None
    else if MagicAt(buf, from) then Some(from)
    else NextMagic(buf, from + 1)
  }

  /** What the search for the next valid frame comes to. */
  datatype Search = Found(at: nat, left: Budget) | NotFound(exhausted: bool)

  function Resync(buf: bytes, scan: nat, b: Budget): (r: Search)
    ensures r.Found? ==> scan <= r.at && FrameLen(buf, r.at).Some?
    decreases |buf| - scan
  {
    if scan + 1 >= |buf| then NotFound(false)
    else
      match NextMagic(buf, scan)
      case None => NotFound(false)
      case Some(m) =>
        if b.Spent() then NotFound(true)
        else if FrameLen(buf, m).Some? then Found(m, b.Spend())
        else Resync(buf, m + 1, b.Spend())
  }

  /** The stretch that starts at `pos`, and the budget left after it. */
  function Next(buf: bytes, strict: bool, pos: nat, b: Budget): (r: (Segment, Budget))
    requires pos < |buf|
    ensures r.0.lo == pos < r.0.hi <= |buf|
    ensures r.0.Good? <==> FrameLen(buf, pos).Some?
    ensures r.0.Good? ==> FrameLen(buf, pos) == Some(r.0.hi - pos) && r.1 == b
    ensures r.0.Bad? && r.0.hi < |buf| ==> FrameLen(buf, r.0.hi).Some?
  {
    match FrameLen(buf, pos)
    case Some(n) => (Good(pos, pos + n), b)
    case None =>
      if strict then (Bad(pos, |buf|), b)
      else
        match Resync(buf, pos + 1, b)
        case NotFound(_) => (Bad(pos, |buf|), b)
        case Found(m, left) => (Bad(pos, m), left)
  }

  /** The stretches a scan from `pos` reports. */
  function Segments(buf: bytes, strict: bool, pos: nat, b: Budget): seq<Segment>
    decreases |buf| - pos
  {
    if pos >= |buf| then []
    else
      var (s, left) := Next(buf, strict, pos, b);
      [s] + Segments(buf, strict, s.hi, left)
  }

  /** Where valid data ends: before a corrupt tail, else at the end of the last stretch. */
  function Eof(segs: seq<Segment>, start: nat): nat {
    if segs == [] then start
    else if segs[|segs| - 1].Bad? then segs[|segs| - 1].lo
    else segs[|segs| - 1].hi
  }

  function WithoutTail(segs: seq<Segment>): seq<Segment> {
    if segs != [] && segs[|segs| - 1].Bad? then segs[..|segs| - 1] else segs
  }

  // ---- what a scan reports -------------------------------------------------

  datatype ScanResult<F> = ScanResult(frames: seq<F>, corruptRanges: seq<(nat, nat)>, eofOffset: nat)

  ghost predicate AllValid(buf: bytes, segs: seq<Segment>) {
    forall s :: s in segs && s.Good? ==> FrameLen(buf, s.lo).Some?
  }

  function Frames(buf: bytes, segs: seq<Segment>): seq<Frame>
    requires AllValid(buf, segs)
  {
    if segs == [] then []
    else if segs[0].Good? then [FrameAt(buf, segs[0].lo)] + Frames(buf, segs[1..])
    else Frames(buf, segs[1..])
  }

  function Refs(buf: bytes, segs: seq<Segment>): seq<FrameRef>
    requires AllValid(buf, segs)
  {
    if segs == [] then []
    else if segs[0].Good? then [RefAt(buf, segs[0].lo)] + Refs(buf, segs[1..])
    else Refs(buf, segs[1..])
  }

  function Ranges(segs: seq<Segment>): seq<(nat, nat)> {
    if segs == [] then []
    else if segs[0].Bad? then [(segs[0].lo, segs[0].hi)] + Ranges(segs[1..])
    else Ranges(segs[1..])
  }

  lemma {:induction false} FramesSnoc(buf: bytes, segs: seq<Segment>, s: Segment)
    requires AllValid(buf, segs + [s])
    ensures AllValid(buf, segs)
    ensures Frames(buf, segs + [s]) == Frames(buf, segs) + if s.Good? then [FrameAt(buf, s.lo)] else []
    ensures Refs(buf, segs + [s]) == Refs(buf, segs) + if s.Good? then [RefAt(buf, s.lo)] else []
    ensures Ranges(segs + [s]) == Ranges(segs) + if s.Bad? then [(s.lo, s.hi)] else []
  {
    hide FrameLen, FrameAt, RefAt;
    assert forall t :: t in segs ==> t in segs + [s];
    if segs == [] {
      assert segs + [s] == [s] && [s][1..] == [];
    } else {
      assert (segs + [s])[0] == segs[0] && (segs + [s])[1..] == segs[1..] + [s];
      FramesSnoc(buf, segs[1..], s);
    }
  }

  // ---- tiling, validity, and nothing lost ----------------------------------

  ghost predicate Tiles(segs: seq<Segment>, start: nat, end: nat) {
    && (segs == [] ==> start == end)
    && (segs != [] ==> segs[0].lo == start && segs[|segs| - 1].hi == end)
    && (forall k :: 0 <= k < |segs| ==> segs[k].lo < segs[k].hi)
    && (forall k :: 0 <= k < |segs| - 1 ==> segs[k].hi == segs[k + 1].lo)
  }

  ghost predicate GoodSizes(buf: bytes, segs: seq<Segment>) {
    forall s :: s in segs && s.Good? ==> FrameLen(buf, s.lo) == Some(s.hi - s.lo)
  }

  /** Frames and corrupt ranges cover the scanned bytes with no gap and no overlap, and every
      frame reported validates where it is reported. */
  lemma {:induction false} ScanTiles(buf: bytes, strict: bool, pos: nat, b: Budget)
    requires pos <= |buf|
    ensures Tiles(Segments(buf, strict, pos, b), pos, |buf|)
    ensures GoodSizes(buf, Segments(buf, strict, pos, b))
    ensures AllValid(buf, Segments(buf, strict, pos, b))
    decreases |buf| - pos
  {
    hide FrameLen, Next;
    if pos < |buf| {
      var (s, left) := Next(buf, strict, pos, b);
      ScanTiles(buf, strict, s.hi, left);
      assert Segments(buf, strict, pos, b) == [s] + Segments(buf, strict, s.hi, left);
    }
  }

  /** The search passes over no valid frame, unless it stops for lack of budget. */
  lemma {:induction false} ResyncSkipsNothing(buf: bytes, scan: nat, b: Budget)
    ensures var r := Resync(buf, scan, b);
            var stop := if r.Found? then r.at else |buf|;
            r == NotFound(true) || forall p :: scan <= p < stop ==> FrameLen(buf, p).None?
    decreases |buf| - scan
  {
    hide Crc, ReadCrc;
    if scan + 1 < |buf| {
      var m := NextMagic(buf, scan);
      if m.Some? && !b.Spent() && FrameLen(buf, m.value).None? {
        ResyncSkipsNothing(buf, m.value + 1, b.Spend());
      }
    }
    assert forall p :: FrameLen(buf, p).Some? ==> MagicAt(buf, p);
  }

  /** The scan gives up for lack of budget at some point. */
  ghost predicate Exhausts(buf: bytes, pos: nat, b: Budget)
    decreases |buf| - pos
  {
    pos < |buf|
    && ((FrameLen(buf, pos).None? && Resync(buf, pos + 1, b) == NotFound(true))
        || (var (s, left) := Next(buf, false, pos, b); Exhausts(buf, s.hi, left)))
  }

  /** No valid frame starts anywhere inside a corrupt range. */
  ghost predicate LosesNothing(buf: bytes, segs: seq<Segment>) {
    forall s, p :: s in segs && s.Bad? && s.lo <= p < s.hi ==> FrameLen(buf, p).None?
  }

  lemma {:induction false} ResyncLosesNothing(buf: bytes, pos: nat, b: Budget)
    requires !Exhausts(buf, pos, b)
    ensures LosesNothing(buf, Segments(buf, false, pos, b))
    decreases |buf| - pos
  {
    hide FrameLen;
    if pos < |buf| {
      var (s, left) := Next(buf, false, pos, b);
      ResyncLosesNothing(buf, s.hi, left);
      assert Segments(buf, false, pos, b) == [s] + Segments(buf, false, s.hi, left);
      ResyncSkipsNothing(buf, pos + 1, b);
    }
  }

  // ---- budgets -------------------------------------------------------------

  /** A search that does not stop for lack of budget finds what it would find without one. */
  lemma {:induction false} ResyncWithinBudget(buf: bytes, scan: nat, b: Budget)
    requires Resync(buf, scan, b) != NotFound(true)
    ensures var r, u := Resync(buf, scan, b), Resync(buf, scan, Unlimited);
            (r.Found? <==> u.Found?) && (r.Found? ==> r.at == u.at && u.left == Unlimited)
    decreases |buf| - scan
  {
    hide FrameLen;
    if scan + 1 < |buf| {
      var m := NextMagic(buf, scan);
      if m.Some? && FrameLen(buf, m.value).None? {
        ResyncWithinBudget(buf, m.value + 1, b.Spend());
      }
    }
  }

  /** A budget that is not exhausted gives exactly the scan an unlimited one gives. */
  lemma {:induction false} NotExhaustedIsUnlimited(buf: bytes, pos: nat, b: Budget)
    requires !Exhausts(buf, pos, b)
    ensures Segments(buf, false, pos, b) == Segments(buf, false, pos, Unlimited)
    decreases |buf| - pos
  {
    hide FrameLen, Resync;
    if pos < |buf| {
      if FrameLen(buf, pos).None? {
        ResyncWithinBudget(buf, pos + 1, b);
      }
      var (s, left) := Next(buf, false, pos, b);
      assert Next(buf, false, pos, Unlimited).0 == s;
      NotExhaustedIsUnlimited(buf, s.hi, left);
      UnlimitedStays(buf, pos);
    }
  }

  lemma UnlimitedStays(buf: bytes, pos: nat)
    requires pos < |buf|
    ensures Next(buf, false, pos, Unlimited).1 == Unlimited
  {
    hide FrameLen;
    NoBudgetStays(buf, pos + 1);
  }

  /** An unlimited budget is never exhausted. */
  lemma {:induction false} UnlimitedNeverExhausts(buf: bytes, pos: nat)
    ensures !Exhausts(buf, pos, Unlimited)
    decreases |buf| - pos
  {
    hide FrameLen, Resync;
    if pos < |buf| {
      NoBudgetStays(buf, pos + 1);
      UnlimitedStays(buf, pos);
      UnlimitedNeverExhausts(buf, Next(buf, false, pos, Unlimited).0.hi);
    }
  }

  /** Exhausted or not, a budget gives the scan an unlimited one gives exactly when no valid frame
      starts inside what it reports as corrupt. */
  lemma {:induction false} BudgetCostsOnlyFramesLost(buf: bytes, pos: nat, b: Budget)
    ensures Segments(buf, false, pos, b) == Segments(buf, false, pos, Unlimited)
            <==> LosesNothing(buf, Segments(buf, false, pos, b))
    decreases |buf| - pos
  {
    UnlimitedNeverExhausts(buf, pos);
    ResyncLosesNothing(buf, pos, Unlimited);
    if LosesNothing(buf, Segments(buf, false, pos, b)) {
      LosingNothingIsUnlimited(buf, pos, b);
    }
  }

  lemma {:induction false} LosingNothingIsUnlimited(buf: bytes, pos: nat, b: Budget)
    requires LosesNothing(buf, Segments(buf, false, pos, b))
    ensures Segments(buf, false, pos, b) == Segments(buf, false, pos, Unlimited)
    decreases |buf| - pos
  {
    hide FrameLen, Resync;
    if pos < |buf| {
      var (s, left) := Next(buf, false, pos, b);
      var rest := Segments(buf, false, s.hi, left);
      assert Segments(buf, false, pos, b) == [s] + rest;
      assert s in [s] + rest && forall t :: t in rest ==> t in [s] + rest;
      if FrameLen(buf, pos).None? {
        if Resync(buf, pos + 1, b) == NotFound(true) {
          assert s == Bad(pos, |buf|);
          NoBudgetStays(buf, pos + 1);
        } else {
          ResyncWithinBudget(buf, pos + 1, b);
        }
      }
      LosingNothingIsUnlimited(buf, s.hi, left);
      UnlimitedStays(buf, pos);
    }
  }

  /** Resynchronising with `b` left does what it would do without a budget. */
  lemma {:induction false} EnoughBudget(buf: bytes, scan: nat, n: int)
    requires n > |buf| - scan
    ensures var r := Resync(buf, scan, Limited(n));
            var u := Resync(buf, scan, Unlimited);
            && (r.Found? <==> u.Found?)
            && (r.Found? ==> r.at == u.at && r.left.Limited? && r.left.left >= |buf| - r.at)
            && r != NotFound(true)
    decreases |buf| - scan
  {
    hide FrameLen;
    if scan + 1 < |buf| {
      var m := NextMagic(buf, scan);
      if m.Some? && FrameLen(buf, m.value).None? {
        EnoughBudget(buf, m.value + 1, n - 1);
      }
    }
  }

  /** A budget of one candidate per byte left to scan is never exhausted, and gives what an
      unlimited one gives. */
  lemma {:induction false} BudgetPerByteSuffices(buf: bytes, pos: nat, n: int)
    requires n >= |buf| - pos
    ensures !Exhausts(buf, pos, Limited(n)) && !Exhausts(buf, pos, Unlimited)
    ensures Segments(buf, false, pos, Limited(n)) == Segments(buf, false, pos, Unlimited)
    decreases |buf| - pos
  {
    hide FrameLen;
    if pos < |buf| {
      EnoughBudget(buf, pos + 1, n);
      NoBudgetStays(buf, pos + 1);
      var (s, left) := Next(buf, false, pos, Limited(n));
      var (t, none) := Next(buf, false, pos, Unlimited);
      assert s == t && left.Limited? && none == Unlimited;
      BudgetPerByteSuffices(buf, s.hi, if s.hi < |buf| then left.left else 0);
    }
  }

  lemma {:induction false} NoBudgetStays(buf: bytes, scan: nat)
    ensures var r := Resync(buf, scan, Unlimited);
            r != NotFound(true) && (r.Found? ==> r.left == Unlimited)
    decreases |buf| - scan
  {
    hide FrameLen;
    if scan + 1 < |buf| {
      var m := NextMagic(buf, scan);
      if m.Some? && FrameLen(buf, m.value).None? {
        NoBudgetStays(buf, m.value + 1);
      }
    }
  }

  // ---- where valid data ends -----------------------------------------------

  /** eofOffset is the end of the last frame reported, or the start when there is none. */
  lemma {:induction false} EofIsLastFrameEnd(buf: bytes, strict: bool, pos: nat, b: Budget)
    requires pos <= |buf|
    ensures var segs := Segments(buf, strict, pos, b);
            var eof := Eof(segs, pos);
            && pos <= eof <= |buf|
            && (eof == pos || exists s :: s in segs && s.Good? && s.hi == eof)
            && (forall s :: s in segs && s.Good? ==> s.hi <= eof)
    decreases |buf| - pos
  {
    hide FrameLen, Next;
    if pos < |buf| {
      var (s, left) := Next(buf, strict, pos, b);
      var rest := Segments(buf, strict, s.hi, left);
      EofIsLastFrameEnd(buf, strict, s.hi, left);
      assert Segments(buf, strict, pos, b) == [s] + rest;
      if s.hi < |buf| {
        assert rest != [];
        if s.Bad? {
          assert rest[0] == Next(buf, strict, s.hi, left).0;
        }
      }
    }
  }

  // ---- scanning the cut file again --------------------------------------------------

  /** Whether a frame is valid depends on its own bytes only. */
  lemma FrameIsLocal(a: bytes, b: bytes, p: nat)
    requires a <= b
    ensures FrameLen(a, p).Some? ==> FrameLen(b, p) == FrameLen(a, p)
    ensures FrameLen(b, p).Some? && p + FrameLen(b, p).value <= |a| ==> FrameLen(a, p) == FrameLen(b, p)
  {
    hide Crc, ReadCrc;
    assert forall lo: nat, hi: nat :: lo <= hi <= |a| ==> a[lo..hi] == b[lo..hi];
    if p + HEADER_SIZE <= |a| {
      assert AnnouncedLen(a, p) == AnnouncedLen(b, p);
    }
  }

  lemma FieldsAreLocal(a: bytes, b: bytes, p: nat)
    requires a <= b && FrameLen(a, p).Some? && FrameLen(b, p).Some? && FrameLen(a, p) == FrameLen(b, p)
    ensures FrameAt(a, p) == FrameAt(b, p) && RefAt(a, p) == RefAt(b, p)
  {
    hide Crc, ReadCrc;
    assert forall lo: nat, hi: nat :: lo <= hi <= |a| ==> a[lo..hi] == b[lo..hi];
    assert AnnouncedLen(a, p) == AnnouncedLen(b, p);
  }

  lemma {:induction false} MagicIsLocal(a: bytes, b: bytes, scan: nat)
    requires a <= b
    requires var m := NextMagic(b, scan); m.Some? && m.value + 1 < |a|
    ensures NextMagic(a, scan) == NextMagic(b, scan)
    decreases |b| - scan
  {
    if !MagicAt(b, scan) {
      MagicIsLocal(a, b, scan + 1);
    }
  }

  lemma {:induction false} ResyncIsLocal(a: bytes, b: bytes, scan: nat, budget: Budget)
    requires a <= b
    requires var r := Resync(b, scan, budget); r.Found? && r.at + FrameLen(b, r.at).value <= |a|
    ensures Resync(a, scan, budget) == Resync(b, scan, budget)
    decreases |b| - scan
  {
    hide FrameLen;
    var r, m := Resync(b, scan, budget), NextMagic(b, scan).value;
    MagicIsLocal(a, b, scan);
    FrameIsLocal(a, b, m);
    if FrameLen(b, m).None? {
      ResyncIsLocal(a, b, m + 1, budget.Spend());
    }
  }

  lemma NextIsLocal(a: bytes, b: bytes, strict: bool, pos: nat, budget: Budget)
    requires a <= b && pos < |a|
    requires var s := Next(b, strict, pos, budget).0;
             if s.Good? then s.hi <= |a|
             else s.hi < |b| && s.hi + FrameLen(b, s.hi).value <= |a|
    ensures Next(a, strict, pos, budget) == Next(b, strict, pos, budget)
  {
    hide FrameLen;
    FrameIsLocal(a, b, pos);
    if FrameLen(b, pos).None? {
      ResyncIsLocal(a, b, pos + 1, budget);
    }
  }

  lemma TailOfRest(s: Segment, rest: seq<Segment>)
    requires s.Good? || rest != []
    ensures WithoutTail([s] + rest) == [s] + WithoutTail(rest)
    ensures Eof([s] + rest, s.lo) == Eof(rest, s.hi)
  {
  }

  /** What a stretch that is not a corrupt tail is followed by. */
  lemma AfterStretch(buf: bytes, strict: bool, pos: nat, b: Budget)
    requires pos < |buf|
    ensures var (s, left) := Next(buf, strict, pos, b);
            var rest := Segments(buf, strict, s.hi, left);
            && (s.hi < |buf| ==> rest != [] && rest[0] == Next(buf, strict, s.hi, left).0)
            && (s.Good? || s.hi < |buf| ==> s.hi <= Eof(rest, s.hi))
            && (s.Bad? && s.hi < |buf| ==> s.hi + FrameLen(buf, s.hi).value <= Eof(rest, s.hi))
  {
    hide FrameLen, Next;
    var (s, left) := Next(buf, strict, pos, b);
    EofIsLastFrameEnd(buf, strict, s.hi, left);
  }

  /** Cutting the file where valid data ends and scanning again finds the same stretches without
      the corrupt tail, and this time valid data ends at the end of the file. */
  lemma {:induction false} RecoveryIsStable(buf: bytes, cut: bytes, strict: bool, pos: nat, b: Budget)
    requires pos <= |buf|
    requires cut <= buf && |cut| == Eof(Segments(buf, strict, pos, b), pos)
    ensures Segments(cut, strict, pos, b) == WithoutTail(Segments(buf, strict, pos, b))
    ensures Eof(Segments(cut, strict, pos, b), pos) == |cut|
    decreases |buf| - pos
  {
    hide FrameLen, Next, Eof, WithoutTail;
    if pos < |buf| {
      var (s, left) := Next(buf, strict, pos, b);
      var rest := Segments(buf, strict, s.hi, left);
      AfterStretch(buf, strict, pos, b);
      if s.Good? || s.hi < |buf| {
        TailOfRest(s, rest);
        RecoveryIsStable(buf, cut, strict, s.hi, left);
        NextIsLocal(cut, buf, strict, pos, b);
        EofAfter(s, WithoutTail(rest));
      } else {
        assert rest == [] && [s] + rest == [s];
        OnlyATail(s);
      }
    } else {
      NothingScanned(pos);
    }
  }

  lemma EofAfter(s: Segment, rest: seq<Segment>)
    requires s.Good? || (rest != [] && rest[0].Good?)
    ensures Eof([s] + rest, s.lo) == Eof(rest, s.hi)
  {
  }

  lemma OnlyATail(s: Segment)
    requires s.Bad?
    ensures WithoutTail([s]) == [] && Eof([s], s.lo) == s.lo && Eof([], s.lo) == s.lo
  {
  }

  lemma NothingScanned(pos: nat)
    ensures WithoutTail([]) == [] && Eof([], pos) == pos
  {
  }

  /** The same, in terms of what a scan reports. */
  lemma RecoveryReportsAreStable(buf: bytes, strict: bool, pos: nat, b: Budget)
    requires pos <= |buf|
    ensures var segs := Segments(buf, strict, pos, b);
            var eof := Eof(segs, pos);
            && AllValid(buf, segs)
            && eof <= |buf|
            && var again := Segments(buf[..eof], strict, pos, b);
            && AllValid(buf[..eof], again)
            && Frames(buf[..eof], again) == Frames(buf, segs)
            && Refs(buf[..eof], again) == Refs(buf, segs)
            && Ranges(again) == Ranges(WithoutTail(segs))
            && Eof(again, pos) == eof
  {
    hide FrameLen, Next, Segments, Frames, Refs, Ranges;
    var segs := Segments(buf, strict, pos, b);
    EofIsLastFrameEnd(buf, strict, pos, b);
    ScanTiles(buf, strict, pos, b);
    var cut := buf[..Eof(segs, pos)];
    RecoveryIsStable(buf, cut, strict, pos, b);
    ScanTiles(cut, strict, pos, b);
    SameReports(cut, buf, WithoutTail(segs));
    TailReportsNoFrame(buf, segs);
  }

  lemma TailReportsNoFrame(buf: bytes, segs: seq<Segment>)
    requires AllValid(buf, segs)
    ensures AllValid(buf, WithoutTail(segs))
    ensures Frames(buf, WithoutTail(segs)) == Frames(buf, segs)
    ensures Refs(buf, WithoutTail(segs)) == Refs(buf, segs)
  {
    hide FrameLen, FrameAt, RefAt;
    if segs != [] && segs[|segs| - 1].Bad? {
      assert segs == WithoutTail(segs) + [segs[|segs| - 1]];
      FramesSnoc(buf, WithoutTail(segs), segs[|segs| - 1]);
    }
  }

  lemma {:induction false} SameReports(a: bytes, b: bytes, segs: seq<Segment>)
    requires a <= b && AllValid(a, segs)
    ensures AllValid(b, segs)
    ensures Frames(a, segs) == Frames(b, segs) && Refs(a, segs) == Refs(b, segs)
  {
    hide FrameLen, FrameAt, RefAt;
    forall s | s in segs && s.Good?
      ensures FrameLen(b, s.lo).Some? && FrameAt(a, s.lo) == FrameAt(b, s.lo) && RefAt(a, s.lo) == RefAt(b, s.lo)
    {
      FrameIsLocal(a, b, s.lo);
      FieldsAreLocal(a, b, s.lo);
    }
    if segs != [] {
      SameReports(a, b, segs[1..]);
    }
  }

  // ---- cutting a file into stretches ---------------------------------------

  /** Consecutive stretches from `pos` to the end: frames that validate, and between any two runs
      of frames one stretch that does not begin with a valid frame. */
  ghost predicate WellCut(buf: bytes, segs: seq<Segment>, pos: nat)
    decreases |segs|
  {
    if segs == [] then pos == |buf|
    else
      var s, rest := segs[0], segs[1..];
      && s.lo == pos < s.hi <= |buf|
      && (s.Good? ==> FrameLen(buf, pos) == Some(s.hi - pos))
      && (s.Bad? ==> FrameLen(buf, pos).None? && (rest != [] ==> rest[0].Good?))
      && WellCut(buf, rest, s.hi)
  }

  ghost predicate InCorrupt(segs: seq<Segment>, p: nat) {
    exists s :: s in segs && s.Bad? && s.lo <= p < s.hi
  }

  lemma InCorruptCons(s: Segment, rest: seq<Segment>, p: nat)
    ensures InCorrupt([s] + rest, p) <==> (s.Bad? && s.lo <= p < s.hi) || InCorrupt(rest, p)
  {
    assert s in [s] + rest;
    assert forall t :: t in rest ==> t in [s] + rest;
  }

  lemma TilesCons(s: Segment, rest: seq<Segment>, end: nat)
    requires Tiles(rest, s.hi, end) && s.lo < s.hi
    ensures Tiles([s] + rest, s.lo, end)
  {
    var all := [s] + rest;
    assert forall k :: 0 < k < |all| ==> all[k] == rest[k - 1];
  }

  lemma {:induction false} WellCutTiles(buf: bytes, segs: seq<Segment>, pos: nat)
    requires WellCut(buf, segs, pos)
    ensures Tiles(segs, pos, |buf|) && GoodSizes(buf, segs)
    decreases |segs|
  {
    hide FrameLen, Tiles;
    if segs != [] {
      var s, rest := segs[0], segs[1..];
      assert segs == [s] + rest;
      WellCutTiles(buf, rest, s.hi);
      TilesCons(s, rest, |buf|);
    } else {
      NoTiles(pos);
    }
  }

  lemma NoTiles(pos: nat)
    ensures Tiles([], pos, pos)
  {
  }

  lemma {:induction false} WellCutEnds(buf: bytes, segs: seq<Segment>, pos: nat)
    requires WellCut(buf, segs, pos)
    ensures pos <= Eof(segs, pos) <= |buf|
    ensures forall s :: s in segs && s.Good? ==> s.hi <= Eof(segs, pos)
    ensures Eof(segs, pos) == pos || exists s :: s in segs && s.Good? && s.hi == Eof(segs, pos)
    decreases |segs|
  {
    hide FrameLen;
    if segs != [] {
      var s, rest := segs[0], segs[1..];
      assert segs == [s] + rest;
      WellCutEnds(buf, rest, s.hi);
      if rest != [] {
        assert Eof(segs, pos) == Eof(rest, s.hi);
        assert rest[0] in rest;
      }
    }
  }

  lemma {:induction false} CorruptIsLater(buf: bytes, segs: seq<Segment>, pos: nat, p: nat)
    requires WellCut(buf, segs, pos) && InCorrupt(segs, p)
    ensures pos <= p < |buf| && (FrameLen(buf, pos).Some? ==> pos < p)
    decreases |segs|
  {
    hide FrameLen;
    var s, rest := segs[0], segs[1..];
    assert segs == [s] + rest;
    InCorruptCons(s, rest, p);
    if InCorrupt(rest, p) {
      CorruptIsLater(buf, rest, s.hi, p);
    }
  }

  /** Where y's first corrupt stretch ends at a frame, one that loses no more ends too. */
  lemma EndsBy(x: seq<Segment>, buf: bytes, y: seq<Segment>, pos: nat)
    requires x != [] && x[0].Bad? && x[0].lo == pos
    requires WellCut(buf, y, pos) && y != [] && y[0].Bad? && FrameLen(buf, y[0].hi).Some?
    requires InCorrupt(x, y[0].hi) ==> InCorrupt(y, y[0].hi)
    ensures x[0].hi <= y[0].hi
  {
    hide FrameLen, InCorrupt;
    var p := y[0].hi;
    assert x == [x[0]] + x[1..] && y == [y[0]] + y[1..];
    InCorruptCons(x[0], x[1..], p);
    InCorruptCons(y[0], y[1..], p);
    if InCorrupt(y[1..], p) {
      CorruptIsLater(buf, y[1..], p, p);
    }
  }

  lemma BadFirst(buf: bytes, segs: seq<Segment>, pos: nat)
    requires WellCut(buf, segs, pos) && segs != []
    ensures segs[0].lo == pos < segs[0].hi <= |buf|
    ensures segs[0].Good? ==> FrameLen(buf, pos) == Some(segs[0].hi - pos)
    ensures segs[0].Bad? ==> FrameLen(buf, pos).None? && InCorrupt(segs, pos)
    ensures segs[0].Bad? && segs[0].hi < |buf| ==> FrameLen(buf, segs[0].hi).Some?
    ensures segs[0].Bad? && |segs| > 1 ==> segs[0].hi < |buf|
  {
    hide FrameLen;
    assert segs[0] in segs;
  }

  lemma NotEmpty(buf: bytes, segs: seq<Segment>, pos: nat)
    requires WellCut(buf, segs, pos) && pos < |buf|
    ensures segs != []
  {
  }

  lemma SameRest(buf: bytes, s: Segment, x: seq<Segment>, y: seq<Segment>, p: nat)
    requires InCorrupt([s] + x, p) ==> InCorrupt([s] + y, p)
    requires WellCut(buf, x, s.hi) && InCorrupt(x, p)
    ensures InCorrupt(y, p)
  {
    hide FrameLen, InCorrupt, WellCut;
    InCorruptCons(s, x, p);
    InCorruptCons(s, y, p);
    CorruptIsLater(buf, x, s.hi, p);
  }

  /** Where two cuts lose the same valid frames, they are the same. */
  lemma {:induction false} CutIsUnique(buf: bytes, x: seq<Segment>, y: seq<Segment>, pos: nat)
    requires WellCut(buf, x, pos) && WellCut(buf, y, pos)
    requires forall p: nat :: FrameLen(buf, p).Some? ==> (InCorrupt(x, p) <==> InCorrupt(y, p))
    ensures x == y
    decreases |x|
  {
    hide FrameLen, InCorrupt;
    if x != [] && y != [] {
      BadFirst(buf, x, pos);
      BadFirst(buf, y, pos);
      if x[0].Bad? && x[0].hi < y[0].hi {
        EndsBy(y, buf, x, pos);
      }
      if x[0].Bad? && y[0].hi < x[0].hi {
        EndsBy(x, buf, y, pos);
      }
      var s := x[0];
      assert x == [s] + x[1..] && y == [s] + y[1..];
      forall p: nat | FrameLen(buf, p).Some?
        ensures InCorrupt(x[1..], p) <==> InCorrupt(y[1..], p)
      {
        if InCorrupt(x[1..], p) {
          SameRest(buf, s, x[1..], y[1..], p);
        }
        if InCorrupt(y[1..], p) {
          SameRest(buf, s, y[1..], x[1..], p);
        }
      }
      CutIsUnique(buf, x[1..], y[1..], s.hi);
    }
  }

  /** A cut of the first part of a file that ends in a frame begins the cut of the whole, if among
      the valid frames that start in the part the two lose the same. */
  lemma {:induction false} CutIsPrefix(part: bytes, buf: bytes, x: seq<Segment>, y: seq<Segment>, pos: nat)
    requires part <= buf && WellCut(part, x, pos) && WellCut(buf, y, pos)
    requires x != [] ==> x[|x| - 1].Good?
    requires forall p: nat :: p < |part| && FrameLen(buf, p).Some? ==> (InCorrupt(x, p) <==> InCorrupt(y, p))
    ensures x <= y
    decreases |x|
  {
    hide FrameLen, InCorrupt;
    if x != [] {
      FrameIsLocal(part, buf, pos);
      SamePartHead(part, buf, x, y, pos);
      var s := x[0];
      assert x == [s] + x[1..] && y == [s] + y[1..];
      forall p: nat | p < |part| && FrameLen(buf, p).Some?
        ensures InCorrupt(x[1..], p) <==> InCorrupt(y[1..], p)
      {
        if InCorrupt(x[1..], p) {
          SameRest(part, s, x[1..], y[1..], p);
        }
        if InCorrupt(y[1..], p) {
          SameRest(buf, s, y[1..], x[1..], p);
        }
      }
      CutIsPrefix(part, buf, x[1..], y[1..], s.hi);
    }
  }

  lemma SamePartHead(part: bytes, buf: bytes, x: seq<Segment>, y: seq<Segment>, pos: nat)
    requires part <= buf && WellCut(part, x, pos) && WellCut(buf, y, pos)
    requires x != [] && x[|x| - 1].Good?
    requires forall p: nat :: p < |part| && FrameLen(buf, p).Some? ==> (InCorrupt(x, p) <==> InCorrupt(y, p))
    ensures y != [] && x[0] == y[0]
  {
    hide FrameLen, InCorrupt, WellCut;
    FrameIsLocal(part, buf, pos);
    BadFirst(part, x, pos);
    NotEmpty(buf, y, pos);
    BadFirst(buf, y, pos);
    if x[0].Bad? {
      if FrameLen(buf, pos).Some? {
        CorruptIsLater(buf, y, pos, pos);
      }
      FrameIsLocal(part, buf, x[0].hi);
      EndsBy(y, part, x, pos);
      if y[0].hi < x[0].hi {
        EndsBy(x, buf, y, pos);
      }
    }
  }

  lemma {:induction false} PrefixCorrupt(part: bytes, buf: bytes, x: seq<Segment>, y: seq<Segment>, pos: nat, p: nat)
    requires WellCut(part, x, pos) && WellCut(buf, y, pos) && x <= y && p < |part|
    ensures InCorrupt(x, p) <==> InCorrupt(y, p)
    decreases |x|
  {
    hide FrameLen, InCorrupt;
    if x == [] {
      if InCorrupt(y, p) {
        CorruptIsLater(buf, y, pos, p);
      }
      NoneCorrupt(p);
    } else {
      var s := x[0];
      assert x == [s] + x[1..] && y == [s] + y[1..];
      InCorruptCons(s, x[1..], p);
      InCorruptCons(s, y[1..], p);
      PrefixCorrupt(part, buf, x[1..], y[1..], s.hi, p);
    }
  }

  lemma NoneCorrupt(p: nat)
    ensures !InCorrupt([], p)
  {
  }

  lemma {:induction false} CutIsWellCut(buf: bytes, cut: bytes, segs: seq<Segment>, pos: nat)
    requires WellCut(buf, segs, pos) && cut <= buf && |cut| == Eof(segs, pos)
    ensures WellCut(cut, WithoutTail(segs), pos)
    ensures WithoutTail(segs) != [] ==> WithoutTail(segs)[|WithoutTail(segs)| - 1].Good?
    decreases |segs|
  {
    hide FrameLen;
    if segs != [] {
      var s, rest := segs[0], segs[1..];
      assert segs == [s] + rest;
      WellCutEnds(buf, segs, pos);
      WellCutEnds(buf, rest, s.hi);
      FrameIsLocal(cut, buf, pos);
      if s.Good? || rest != [] {
        TailOfRest(s, rest);
        CutIsWellCut(buf, cut, rest, s.hi);
        assert WithoutTail(segs)[1..] == WithoutTail(rest);
        assert rest != [] ==> rest[0] in rest;
      }
    }
  }

  lemma CorruptBeforeTail(buf: bytes, segs: seq<Segment>, pos: nat, p: nat)
    requires WellCut(buf, segs, pos) && p < Eof(segs, pos)
    ensures InCorrupt(segs, p) <==> InCorrupt(WithoutTail(segs), p)
  {
    hide WellCut;
    var kept := WithoutTail(segs);
    if kept != segs {
      assert segs == kept + [segs[|segs| - 1]];
      assert forall s :: s in segs <==> s in kept || s == segs[|segs| - 1];
    }
  }

  // ---- catching up with a growing file -------------------------------------

  /** Nothing was skipped, except perhaps a corrupt tail. */
  predicate Undamaged(segs: seq<Segment>) {
    forall k :: 0 <= k < |segs| - 1 ==> segs[k].Good?
  }

  lemma {:induction false} StrictScansAreUndamaged(buf: bytes, pos: nat, b: Budget)
    ensures Undamaged(Segments(buf, true, pos, b))
    decreases |buf| - pos
  {
    hide FrameLen;
    if pos < |buf| {
      var (s, left) := Next(buf, true, pos, b);
      StrictScansAreUndamaged(buf, s.hi, left);
      assert Segments(buf, true, pos, b) == [s] + Segments(buf, true, s.hi, left);
    }
  }

  lemma UndamagedRest(s: Segment, rest: seq<Segment>)
    requires Undamaged([s] + rest)
    ensures Undamaged(rest)
    ensures s.Bad? ==> rest == []
  {
    assert forall k :: 0 <= k < |rest| - 1 ==> rest[k] == ([s] + rest)[k + 1];
    assert ([s] + rest)[0] == s;
  }

  lemma GoodIsLocal(short: bytes, grown: bytes, strict: bool, pos: nat, b: Budget)
    requires short <= grown && pos < |short| && FrameLen(short, pos).Some?
    ensures Next(grown, strict, pos, b) == Next(short, strict, pos, b)
    ensures var (s, left) := Next(short, strict, pos, b);
            left == b && Segments(grown, strict, pos, b) == [s] + Segments(grown, strict, s.hi, b)
  {
    hide FrameLen;
    FrameIsLocal(short, grown, pos);
  }

  lemma WithoutTailCons(s: Segment, rest: seq<Segment>)
    requires s.Good?
    ensures WithoutTail([s] + rest) == [s] + WithoutTail(rest)
    ensures Eof([s] + rest, s.lo) == Eof(rest, s.hi)
  {
  }

  lemma OneStretch(buf: bytes, strict: bool, pos: nat, b: Budget)
    requires pos < |buf|
    ensures var (s, left) := Next(buf, strict, pos, b);
            Segments(buf, strict, pos, b) == [s] + Segments(buf, strict, s.hi, left)
  {
    hide FrameLen, Next;
  }

  lemma NoTailOfNothing(short: bytes, grown: bytes, strict: bool, pos: nat, b: Budget)
    requires pos == |short|
    ensures var before := Segments(short, strict, pos, b);
            Segments(grown, strict, pos, b) == WithoutTail(before) + Segments(grown, strict, Eof(before, pos), b)
  {
  }

  lemma TailAlone(grown: bytes, strict: bool, s: Segment, b: Budget)
    requires s.Bad?
    ensures Segments(grown, strict, s.lo, b) == WithoutTail([s] + []) + Segments(grown, strict, Eof([s] + [], s.lo), b)
  {
    assert [s] + [] == [s] && WithoutTail([s]) == [];
  }

  lemma {:induction false} CatchUpUndamaged(short: bytes, grown: bytes, strict: bool, pos: nat, b: Budget)
    requires short <= grown && pos <= |short|
    requires Undamaged(Segments(short, strict, pos, b))
    ensures var before := Segments(short, strict, pos, b);
            Segments(grown, strict, pos, b)
            == WithoutTail(before) + Segments(grown, strict, Eof(before, pos), b)
    decreases |short| - pos
  {
    hide FrameLen, Next, Segments, WithoutTail, Eof, Undamaged;
    if pos == |short| {
      NoTailOfNothing(short, grown, strict, pos, b);
    } else {
      FrameIsLocal(short, grown, pos);
      var (s, left) := Next(short, strict, pos, b);
      var rest := Segments(short, strict, s.hi, left);
      OneStretch(short, strict, pos, b);
      UndamagedRest(s, rest);
      if s.Bad? {
        TailAlone(grown, strict, s, b);
      } else {
        CatchUpUndamaged(short, grown, strict, s.hi, left);
        GoodIsLocal(short, grown, strict, pos, b);
        WithoutTailCons(s, rest);
        var later := Segments(grown, strict, Eof(rest, s.hi), b);
        assert [s] + (WithoutTail(rest) + later) == ([s] + WithoutTail(rest)) + later;
      }
    }
  }

  /** Scanning a file that has grown is scanning what was there and going on from where valid
      data ended: always in strict mode, else when nothing had been skipped. */
  lemma CatchUp(short: bytes, grown: bytes, strict: bool, pos: nat, b: Budget)
    requires short <= grown && pos <= |short|
    requires strict || Undamaged(Segments(short, strict, pos, b))
    ensures var before := Segments(short, strict, pos, b);
            Segments(grown, strict, pos, b)
            == WithoutTail(before) + Segments(grown, strict, Eof(before, pos), b)
  {
    hide FrameLen, Next, Segments;
    if strict {
      StrictScansAreUndamaged(short, pos, b);
    }
    CatchUpUndamaged(short, grown, strict, pos, b);
  }

  lemma {:induction false} SegmentsWellCut(buf: bytes, strict: bool, pos: nat, b: Budget)
    requires pos <= |buf|
    ensures WellCut(buf, Segments(buf, strict, pos, b), pos)
    decreases |buf| - pos
  {
    hide FrameLen, Next;
    if pos < |buf| {
      var (s, left) := Next(buf, strict, pos, b);
      var rest := Segments(buf, strict, s.hi, left);
      SegmentsWellCut(buf, strict, s.hi, left);
      assert ([s] + rest)[1..] == rest;
    }
  }

  /** A scan that does not run out of budget is the one way of cutting the file into frames and
      corrupt ranges that loses no valid frame. */
  lemma ScanIsTheLosslessCut(buf: bytes, pos: nat, b: Budget, segs: seq<Segment>)
    requires WellCut(buf, segs, pos) && !Exhausts(buf, pos, b)
    ensures Segments(buf, false, pos, b) == segs <==> LosesNothing(buf, segs)
  {
    hide FrameLen, Segments, WellCut, Exhausts;
    WellCutEnds(buf, segs, pos);
    SegmentsWellCut(buf, false, pos, b);
    ResyncLosesNothing(buf, pos, b);
    if LosesNothing(buf, segs) {
      CutIsUnique(buf, Segments(buf, false, pos, b), segs, pos);
    }
  }

  /** A cut of the first part of the file, followed by a cut of the rest. */
  lemma {:induction false} JoinCuts(buf: bytes, part: bytes, x: seq<Segment>, y: seq<Segment>, pos: nat)
    requires part <= buf && WellCut(part, x, pos) && WellCut(buf, y, |part|)
    requires x != [] ==> x[|x| - 1].Good?
    requires LosesNothing(buf, x)
    ensures WellCut(buf, x + y, pos)
    decreases |x|
  {
    hide FrameLen;
    if x == [] {
      assert x + y == y;
    } else {
      var s, rest := x[0], x[1..];
      assert s in x && forall t :: t in rest ==> t in x;
      FrameIsLocal(part, buf, pos);
      JoinCuts(buf, part, rest, y, s.hi);
      assert (x + y)[0] == s && (x + y)[1..] == rest + y;
    }
  }

  /** Exactly when it is, in resync mode and with budgets that last: when no valid frame of the
      grown file starts inside what the first scan skipped. */
  lemma CatchUpIff(short: bytes, grown: bytes, pos: nat, first: Budget, whole: Budget, next: Budget)
    requires short <= grown && pos <= |short|
    requires !Exhausts(grown, pos, whole)
    requires !Exhausts(grown, Eof(Segments(short, false, pos, first), pos), next)
    ensures var before := Segments(short, false, pos, first);
            Segments(grown, false, pos, whole)
            == WithoutTail(before) + Segments(grown, false, Eof(before, pos), next)
            <==> LosesNothing(grown, WithoutTail(before))
  {
    hide FrameLen, Segments, WellCut, Exhausts, WithoutTail, Eof;
    var before := Segments(short, false, pos, first);
    var kept, eof := WithoutTail(before), Eof(before, pos);
    SegmentsWellCut(short, false, pos, first);
    WellCutEnds(short, before, pos);
    CutIsWellCut(short, short[..eof], before, pos);
    var later := Segments(grown, false, eof, next);
    SegmentsWellCut(grown, false, eof, next);
    ResyncLosesNothing(grown, eof, next);
    ResyncLosesNothing(grown, pos, whole);
    assert forall s :: s in kept ==> s in kept + later;
    if LosesNothing(grown, kept) {
      JoinCuts(grown, short[..eof], kept, later, pos);
      ScanIsTheLosslessCut(grown, pos, whole, kept + later);
    }
  }

  lemma FirstStretch(buf: bytes, strict: bool, pos: nat, b: Budget)
    requires pos < |buf|
    ensures Segments(buf, strict, pos, b) != []
    ensures Segments(buf, strict, pos, b)[0] == Next(buf, strict, pos, b).0
    ensures var (s, left) := Next(buf, strict, pos, b);
            |Segments(buf, strict, pos, b)| == 1 <==> s.hi == |buf|
  {
    hide FrameLen, Next;
  }

  /** Resynchronisation finds a frame no later than any valid frame there is. */
  lemma ResyncFindsBy(buf: bytes, p: nat)
    requires p > 0 && FrameLen(buf, 0).None? && FrameLen(buf, p).Some?
    ensures var s := Next(buf, false, 0, Unlimited).0; s.Bad? && s.hi <= p
  {
    hide FrameLen;
    ResyncSkipsNothing(buf, 1, Unlimited);
    NoBudgetStays(buf, 1);
  }

  lemma InnerFrame(outer: Image, inner: Image, at: nat) returns (p: nat)
    requires Fits(outer) && Fits(inner) && HasAt(outer.value, at, Layout(inner))
    ensures |Layout(outer)| == Size(outer) && FrameLen(Layout(outer), 0) == Some(Size(outer))
    ensures p > 0 && p + Size(inner) < Size(outer)
    ensures FrameLen(Layout(outer), p) == Some(Size(inner))
  {
    hide Crc, ReadCrc, CrcBytes;
    var whole := Layout(outer);
    LayoutParts(whole, 0, outer);
    BodyParts(whole, 0, outer);
    assert whole[0..0 + |whole|] == whole;
    ReadsLayout(whole, 0, outer);
    p := HEADER_SIZE + |outer.key| + at;
    BodyParts(whole, p, inner);
    assert whole[p..p + |Layout(inner)|] == outer.value[at..at + |Layout(inner)|];
    ReadsLayout(whole, p, inner);
  }

  /** Why the condition is there: a record whose value holds a whole encoded record, torn by one
      byte. Resynchronising reports bytes from inside the value, and going on from there never
      gives the one record the completed file holds. */
  lemma TornOuterFrame(outer: Image, inner: Image, at: nat)
    requires Fits(outer) && Fits(inner) && HasAt(outer.value, at, Layout(inner))
    ensures var whole := Layout(outer);
            var torn := whole[..|whole| - 1];
            var before := Segments(torn, false, 0, Unlimited);
            && Segments(whole, false, 0, Unlimited) == [Good(0, |whole|)]
            && !Undamaged(before)
            && Segments(whole, false, 0, Unlimited)
               != WithoutTail(before) + Segments(whole, false, Eof(before, 0), Unlimited)
  {
    hide FrameLen, Layout, Next, Segments;
    var p := InnerFrame(outer, inner, at);
    var whole := Layout(outer);
    FirstStretch(whole, false, 0, Unlimited);
    var torn := whole[..|whole| - 1];
    FrameIsLocal(torn, whole, 0);
    FrameIsLocal(torn, whole, p);
    ResyncFindsBy(torn, p);
    FirstStretch(torn, false, 0, Unlimited);
    assert WithoutTail(Segments(torn, false, 0, Unlimited))[0].Bad?;
  }
}
