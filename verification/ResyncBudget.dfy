// packages/minidb/src/codec.ts: what the resynchronisation budget counts, said of the magics in
// the file and without following a search.
module ResyncBudget {
  import opened Wrappers
  import opened Bytes
  import opened Crc32
  import opened FrameCodec
  import opened Recovery
  import opened AsyncScan
  import opened WindowedRecovery

  /** How many magics start from `lo` up to `hi`, those at the places `skip` left out. */
  ghost function Magics(buf: bytes, lo: nat, hi: nat, skip: set<nat>): nat
    decreases hi - lo
  {
    if lo >= hi then 0 else (if MagicAt(buf, lo) && lo !in skip then 1 else 0) + Magics(buf, lo + 1, hi, skip)
  }

  /** The magics in a corrupt range behind its first byte, up to and including the one at `p`. */
  ghost function MagicsTo(buf: bytes, s: Segment, p: nat, skip: set<nat>): nat {
    Magics(buf, s.lo + 1, p + 1, skip)
  }

  /** The magics in all corrupt ranges that end in a frame, the frame's own included. */
  ghost function MagicsPassed(buf: bytes, segs: seq<Segment>, skip: set<nat>): nat {
    if segs == [] then 0
    else
      (if segs[0].Bad? && segs[0].hi < |buf| then MagicsTo(buf, segs[0], segs[0].hi, skip) else 0)
      + MagicsPassed(buf, segs[1..], skip)
  }

  /** A cut that a search looking at `n` magics at most, and at none at the places `skip`, can
      afford, and that gives up nothing it can afford: the corrupt ranges that end in a frame have
      cost at most n and lost only what starts at those places; what starts there is lost; and what
      else is lost is in a corrupt tail, and reaching it would have cost more. */
  ghost predicate Affords(buf: bytes, segs: seq<Segment>, n: nat, skip: set<nat>) {
    && MagicsPassed(buf, segs, skip) <= n
    && (forall p: nat :: FrameLen(buf, p).Some? && p in skip ==> InCorrupt(segs, p))
    && (forall p: nat :: FrameLen(buf, p).Some? && InCorrupt(segs, p) && p !in skip ==>
          InTail(buf, segs, p) && MagicsPassed(buf, segs, skip) + MagicsTo(buf, segs[|segs| - 1], p, skip) > n)
  }

  /** p lies in a corrupt range at the end. */
  ghost predicate InTail(buf: bytes, segs: seq<Segment>, p: nat) {
    segs != [] && var s := segs[|segs| - 1]; s.Bad? && s.hi == |buf| && s.lo <= p < s.hi
  }

  function Most(n: int): nat {
    if n < 0 then 0 else n
  }

  // ---- counting ------------------------------------------------------------

  lemma {:induction false} MagicsSplit(buf: bytes, lo: nat, mid: nat, hi: nat, skip: set<nat>)
    requires lo <= mid <= hi
    ensures Magics(buf, lo, hi, skip) == Magics(buf, lo, mid, skip) + Magics(buf, mid, hi, skip)
    decreases mid - lo
  {
    if lo < mid {
      MagicsSplit(buf, lo + 1, mid, hi, skip);
    }
  }

  lemma {:induction false} SameSkips(buf: bytes, lo: nat, hi: nat, x: set<nat>, y: set<nat>)
    requires forall p: nat :: lo <= p < hi ==> (p in x <==> p in y)
    ensures Magics(buf, lo, hi, x) == Magics(buf, lo, hi, y)
    decreases hi - lo
  {
    if lo < hi {
      SameSkips(buf, lo + 1, hi, x, y);
    }
  }

  lemma {:induction false} NoMagics(buf: bytes, lo: nat, hi: nat, skip: set<nat>)
    requires forall p: nat :: lo <= p < hi && MagicAt(buf, p) ==> p in skip
    ensures Magics(buf, lo, hi, skip) == 0
    decreases hi - lo
  {
    if lo < hi {
      NoMagics(buf, lo + 1, hi, skip);
    }
  }

  // ---- one search ----------------------------------------------------------

  /** What a search has left tells how many magics it looked at; and if it finds nothing, every
      valid frame it neither found nor stepped over lies behind more magics than it may look at. */
  ghost predicate Costs(buf: bytes, r: Search, places: set<nat>, scan: nat, n: int) {
    && (r.Found? ==> r.left == Limited(n - Magics(buf, scan, r.at + 1, places)) && r.left.left >= 0)
    && (!r.Found? ==> forall p: nat :: scan <= p && FrameLen(buf, p).Some? && p !in places
                                       ==> Magics(buf, scan, p + 1, places) > Most(n))
  }

  /** Going on from `next` with `m` to spend costs as much more as there are magics before it. */
  lemma CostsBefore(
    buf: bytes, r: Search, places: set<nat>, later: set<nat>, scan: nat, next: nat, n: int, m: int)
    requires scan < next && Costs(buf, r, later, next, m)
    requires forall p: nat :: next <= p ==> (p in places <==> p in later)
    requires Magics(buf, scan, next, places) == n - m && (n == m || m >= 0)
    requires r.Found? ==> next <= r.at
    requires forall p: nat :: scan <= p < next && FrameLen(buf, p).Some? ==> p in places
    ensures Costs(buf, r, places, scan, n)
  {
    hide FrameLen, Magics;
    if r.Found? {
      MagicsSplit(buf, scan, next, r.at + 1, places);
      SameSkips(buf, next, r.at + 1, places, later);
    }
    forall p: nat | !r.Found? && scan <= p && FrameLen(buf, p).Some? && p !in places
      ensures Magics(buf, scan, p + 1, places) > Most(n)
    {
      MagicsSplit(buf, scan, next, p + 1, places);
      SameSkips(buf, next, p + 1, places, later);
    }
  }

  lemma CostsAtMagic(buf: bytes, scan: nat, m: nat, n: int)
    requires scan <= m && MagicAt(buf, m) && forall p: nat :: scan <= p < m ==> !MagicAt(buf, p)
    ensures Magics(buf, scan, m + 1, {}) == 1
    ensures n <= 0 ==> Costs(buf, NotFound(true), {}, scan, n)
    ensures n > 0 ==> Costs(buf, Found(m, Limited(n - 1)), {}, scan, n)
  {
    hide FrameLen;
    NoMagicNoFrameAnywhere(buf);
    NoMagics(buf, scan, m, {});
    MagicsSplit(buf, scan, m, m + 1, {});
    forall p: nat | scan <= p && FrameLen(buf, p).Some?
      ensures Magics(buf, scan, p + 1, {}) >= 1
    {
      MagicsSplit(buf, scan, m + 1, p + 1, {});
    }
  }

  lemma {:induction false} SearchCosts(buf: bytes, width: nat, w: Window, scan: nat, n: int)
    requires width >= HEADER_SIZE && Full(buf, width, w) && scan <= |buf|
    ensures Costs(buf, WindowedResync(buf, width, w, scan, Limited(n)).0,
                  SteppedOver(buf, width, w, scan, Limited(n)), scan, n)
    decreases |buf| - scan
  {
    hide FrameLen, AfterFrame, Covering, Full, MagicAt, WindowedResync, SteppedOver, Resync, NextMagic, Costs, Magics;
    var b := Limited(n);
    NoMagicNoFrameAnywhere(buf);
    SearchPassesOver(buf, width, w, scan, b);
    if scan + 1 >= |buf| {
      NearTheEnd(buf, width, w, scan, b, b);
      NothingThere(buf, scan, n);
    } else {
      SearchStep(buf, width, w, scan);
      var v := Covering(buf, width, w, scan);
      match NextMagic(buf[..v.End()], scan) {
        case None =>
          EmptyWindow(buf, width, w, scan, b, b);
          if v.End() < |buf| {
            var next := if v.End() - 1 > scan then v.End() - 1 else scan + 1;
            SearchCosts(buf, width, v, next, n);
            var places := SteppedOver(buf, width, w, scan, b);
            NoMagics(buf, scan, next, places);
            CostsBefore(buf, WindowedResync(buf, width, w, scan, b).0, places,
                        SteppedOver(buf, width, v, next, b), scan, next, n, n);
          } else {
            NothingThere(buf, scan, n);
          }
        case Some(m) =>
          MagicWindow(buf, width, w, scan, b, b);
          CostsAtMagic(buf, scan, m, n);
          if !b.Spent() && FrameLen(buf, m).None? {
            var u := AfterFrame(buf, width, v, m);
            SearchCosts(buf, width, u, m + 1, n - 1);
            SearchPassesOver(buf, width, u, m + 1, b.Spend());
            var places := SteppedOver(buf, width, w, scan, b);
            SameSkips(buf, scan, m + 1, places, {});
            CostsBefore(buf, WindowedResync(buf, width, w, scan, b).0, places, places, scan, m + 1, n, n - 1);
          }
      }
    }
  }

  lemma NothingThere(buf: bytes, scan: nat, n: int)
    requires forall p: nat :: scan <= p < |buf| ==> FrameLen(buf, p).None?
    ensures Costs(buf, NotFound(false), {}, scan, n)
  {
    hide FrameLen, Magics;
    NoRoomForFrame(buf);
  }

  // ---- a whole scan --------------------------------------------------------

  lemma {:induction false} StepsAreLater(buf: bytes, width: nat, w: Window, pos: nat, b: Budget)
    requires width >= HEADER_SIZE && Full(buf, width, w) && pos <= |buf|
    ensures forall p :: p in AllSteppedOver(buf, width, false, w, pos, b) ==> pos < p
    decreases |buf| - pos
  {
    hide FrameLen, AfterFrame, SteppedOver, WindowedResync, Full, WindowedNext, AllSteppedOver, GivesUp;
    if pos < |buf| {
      var (s, left, v) := WindowedNext(buf, width, false, w, pos, b);
      FirstSteps(buf, width, w, pos, b);
      StepsAreLater(buf, width, v, s.hi, left);
      if s.Bad? {
        SearchPassesOver(buf, width, AfterFrame(buf, width, w, pos), pos + 1, b);
      }
    } else {
      NothingAtEnd(buf, width, w, pos, b);
    }
  }

  lemma {:induction false} SamePassed(buf: bytes, segs: seq<Segment>, pos: nat, x: set<nat>, y: set<nat>)
    requires WellCut(buf, segs, pos)
    requires forall p: nat :: pos < p ==> (p in x <==> p in y)
    ensures MagicsPassed(buf, segs, x) == MagicsPassed(buf, segs, y)
    decreases |segs|
  {
    hide FrameLen, Magics;
    if segs != [] {
      SamePassed(buf, segs[1..], segs[0].hi, x, y);
      SameSkips(buf, segs[0].lo + 1, segs[0].hi + 1, x, y);
    }
  }

  lemma PassedCons(buf: bytes, s: Segment, rest: seq<Segment>, skip: set<nat>)
    ensures MagicsPassed(buf, [s] + rest, skip)
            == (if s.Bad? && s.hi < |buf| then MagicsTo(buf, s, s.hi, skip) else 0) + MagicsPassed(buf, rest, skip)
  {
    assert ([s] + rest)[1..] == rest;
  }

  /** What a valid frame in the tail would have cost to reach. */
  ghost predicate TooDear(buf: bytes, segs: seq<Segment>, n: int, skip: set<nat>, p: nat) {
    FrameLen(buf, p).Some? && InTail(buf, segs, p) && p !in skip ==>
      MagicsPassed(buf, segs, skip) + MagicsTo(buf, segs[|segs| - 1], p, skip) > n
  }

  /** A stretch in front of the others, with what it cost. */
  lemma CostCons(buf: bytes, s: Segment, rest: seq<Segment>, n: nat, m: nat, skip: set<nat>, after: set<nat>, p: nat)
    requires s.hi < |buf| && WellCut(buf, rest, s.hi)
    requires forall q: nat :: s.hi < q ==> (q in skip <==> q in after)
    requires n == m + if s.Bad? then MagicsTo(buf, s, s.hi, skip) else 0
    requires MagicsPassed(buf, rest, after) <= m && TooDear(buf, rest, m, after, p)
    ensures MagicsPassed(buf, [s] + rest, skip) <= n && TooDear(buf, [s] + rest, n, skip, p)
  {
    hide FrameLen, MagicsPassed;
    PassedCons(buf, s, rest, skip);
    SamePassed(buf, rest, s.hi, skip, after);
    if InTail(buf, [s] + rest, p) && FrameLen(buf, p).Some? {
      assert rest != [] && InTail(buf, rest, p);
      var last := rest[|rest| - 1];
      WellCutTiles(buf, rest, s.hi);
      LastStartsLater(rest, s.hi, |buf|);
      SameSkips(buf, last.lo + 1, p + 1, skip, after);
      assert p in skip <==> p in after by {
        if p == s.hi {
          CorruptIsLater(buf, rest, s.hi, p);
        }
      }
    }
  }

  lemma LastStartsLater(segs: seq<Segment>, start: nat, end: nat)
    requires Tiles(segs, start, end) && segs != []
    ensures start <= segs[|segs| - 1].lo
  {
    TilesAscend(segs, start, end, |segs| - 1);
  }

  lemma {:induction false} TilesAscend(segs: seq<Segment>, start: nat, end: nat, k: nat)
    requires Tiles(segs, start, end) && k < |segs|
    ensures start <= segs[k].lo
    decreases k
  {
    if k > 0 {
      TilesAscend(segs, start, end, k - 1);
      assert segs[k - 1].lo < segs[k - 1].hi && segs[k - 1].hi == segs[k].lo;
    }
  }

  /** A scan looks at as many magics as it was allowed to at most, and a frame lost in the tail and
      not stepped over lies behind more. */
  lemma {:induction false} ScanCosts(buf: bytes, width: nat, w: Window, pos: nat, n: int, p: nat)
    requires width >= HEADER_SIZE && Full(buf, width, w) && pos <= |buf|
    ensures var segs, places := WindowedSegments(buf, width, false, w, pos, Limited(n)),
                                AllSteppedOver(buf, width, false, w, pos, Limited(n));
            MagicsPassed(buf, segs, places) <= Most(n) && TooDear(buf, segs, Most(n), places, p)
    decreases |buf| - pos
  {
    hide FrameLen, AfterFrame, SteppedOver, WindowedResync, Full, WindowedSegments, AllSteppedOver,
      TooDear, Magics;
    var b := Limited(n);
    if pos == |buf| {
      NothingAtEnd(buf, width, w, pos, b);
      NoCosts(buf, Most(n), {}, p);
    } else {
      var (s, left, v) := WindowedNext(buf, width, false, w, pos, b);
      var rest := WindowedSegments(buf, width, false, v, s.hi, left);
      var after := AllSteppedOver(buf, width, false, v, s.hi, left);
      var places := AllSteppedOver(buf, width, false, w, pos, b);
      FirstWindowed(buf, width, false, w, pos, b);
      FirstSteps(buf, width, w, pos, b);
      WindowedWellCut(buf, width, false, v, s.hi, left);
      StepsAreLater(buf, width, v, s.hi, left);
      var u := AfterFrame(buf, width, w, pos);
      if s.Bad? {
        SearchCosts(buf, width, u, pos + 1, n);
        SearchPassesOver(buf, width, u, pos + 1, b);
      }
      if s.hi < |buf| {
        ScanCosts(buf, width, v, s.hi, left.left, p);
        if s.Bad? {
          SameSkips(buf, pos + 1, s.hi + 1, places, SteppedOver(buf, width, u, pos + 1, b));
        }
        CostCons(buf, s, rest, Most(n), Most(left.left), places, after, p);
      } else {
        NothingAtEnd(buf, width, v, s.hi, left);
        assert [s] + rest == [s];
        if s.Bad? {
          assert places == SteppedOver(buf, width, u, pos + 1, b);
        }
        LastCosts(buf, s, Most(n), places, p);
      }
    }
  }

  lemma NoCosts(buf: bytes, n: nat, skip: set<nat>, p: nat)
    ensures MagicsPassed(buf, [], skip) <= n && TooDear(buf, [], n, skip, p)
  {
  }

  lemma LastCosts(buf: bytes, s: Segment, n: nat, skip: set<nat>, p: nat)
    requires s.hi == |buf| && (s.Bad? ==> FrameLen(buf, s.lo).None?)
    requires s.Bad? && FrameLen(buf, p).Some? && s.lo < p && p !in skip ==> Magics(buf, s.lo + 1, p + 1, skip) > n
    ensures MagicsPassed(buf, [s], skip) <= n && TooDear(buf, [s], n, skip, p)
  {
    hide FrameLen, Magics;
    assert [s][1..] == [];
  }

  // ---- the one cut that can be afforded ------------------------------------

  lemma {:induction false} AffordsRest(buf: bytes, s: Segment, rest: seq<Segment>, pos: nat, n: nat, skip: set<nat>)
    requires WellCut(buf, [s] + rest, pos) && WellCut(buf, rest, s.hi) && rest != []
    requires AffordsFrom(buf, [s] + rest, pos, n, skip)
    ensures var cost := if s.Bad? then MagicsTo(buf, s, s.hi, skip) else 0;
            cost <= n && AffordsFrom(buf, rest, s.hi, n - cost, skip)
  {
    hide FrameLen, Magics, MagicsPassed, WellCut;
    PassedCons(buf, s, rest, skip);
    BadFirst(buf, [s] + rest, pos);
    BadFirst(buf, rest, s.hi);
    var cost := if s.Bad? then MagicsTo(buf, s, s.hi, skip) else 0;
    forall p: nat | s.hi <= p && FrameLen(buf, p).Some?
      ensures p in skip ==> InCorrupt(rest, p)
      ensures InCorrupt(rest, p) && p !in skip ==> InCorrupt([s] + rest, p)
    {
      InCorruptCons(s, rest, p);
    }
    assert ([s] + rest)[|[s] + rest| - 1] == rest[|rest| - 1];
  }

  /** Affords, for the part of the file that starts at pos. */
  ghost predicate AffordsFrom(buf: bytes, segs: seq<Segment>, pos: nat, n: nat, skip: set<nat>) {
    && MagicsPassed(buf, segs, skip) <= n
    && (forall p: nat :: pos <= p && FrameLen(buf, p).Some? && p in skip ==> InCorrupt(segs, p))
    && (forall p: nat :: pos <= p && FrameLen(buf, p).Some? && InCorrupt(segs, p) && p !in skip ==>
          InTail(buf, segs, p) && MagicsPassed(buf, segs, skip) + MagicsTo(buf, segs[|segs| - 1], p, skip) > n)
  }

  /** Where a corrupt range that can be afforded ends at a frame, none that gives nothing up ends
      later. */
  lemma EndsNoLater(buf: bytes, x: seq<Segment>, y: seq<Segment>, pos: nat, n: nat, skip: set<nat>)
    requires WellCut(buf, x, pos) && WellCut(buf, y, pos) && x != [] && y != [] && x[0].Bad? && y[0].Bad?
    requires AffordsFrom(buf, x, pos, n, skip) && AffordsFrom(buf, y, pos, n, skip)
    ensures y[0].hi <= x[0].hi
  {
    hide FrameLen, Magics, InCorrupt;
    var q := x[0].hi;
    assert x == [x[0]] + x[1..] && y == [y[0]] + y[1..];
    BadFirst(buf, x, pos);
    if q < y[0].hi {
      assert FrameLen(buf, q).Some?;
      InCorruptCons(x[0], x[1..], q);
      InCorruptCons(y[0], y[1..], q);
      if InCorrupt(x[1..], q) {
        CorruptIsLater(buf, x[1..], q, q);
      }
      PassedCons(buf, x[0], x[1..], skip);
      PassedCons(buf, y[0], y[1..], skip);
      assert InTail(buf, y, q);
      if |y| > 1 {
        WellCutTiles(buf, y[1..], y[0].hi);
        LastStartsLater(y[1..], y[0].hi, |buf|);
      }
    }
  }

  lemma {:induction false} AffordedCutIsUnique(
    buf: bytes, x: seq<Segment>, y: seq<Segment>, pos: nat, n: nat, skip: set<nat>)
    requires WellCut(buf, x, pos) && WellCut(buf, y, pos)
    requires AffordsFrom(buf, x, pos, n, skip) && AffordsFrom(buf, y, pos, n, skip)
    ensures x == y
    decreases |x|
  {
    hide FrameLen, Magics, InCorrupt, AffordsFrom;
    if x != [] && y != [] {
      BadFirst(buf, x, pos);
      BadFirst(buf, y, pos);
      if x[0].Bad? {
        EndsNoLater(buf, x, y, pos, n, skip);
        EndsNoLater(buf, y, x, pos, n, skip);
      }
      var s := x[0];
      assert x == [s] + x[1..] && y == [s] + y[1..];
      if x[1..] != [] && y[1..] != [] {
        AffordsRest(buf, s, x[1..], pos, n, skip);
        AffordsRest(buf, s, y[1..], pos, n, skip);
        AffordedCutIsUnique(buf, x[1..], y[1..], s.hi,
                            n - if s.Bad? then MagicsTo(buf, s, s.hi, skip) else 0, skip);
      }
    }
  }

  lemma AffordsIsFrom(buf: bytes, segs: seq<Segment>, pos: nat, n: nat, skip: set<nat>)
    requires forall p :: p in skip ==> pos <= p
    requires WellCut(buf, segs, pos)
    ensures Affords(buf, segs, n, skip) <==> AffordsFrom(buf, segs, pos, n, skip)
  {
    hide FrameLen, Magics, InCorrupt, MagicsPassed;
    forall p: nat | InCorrupt(segs, p)
      ensures pos <= p
    {
      CorruptIsLater(buf, segs, pos, p);
    }
  }

  lemma ScanAffords(buf: bytes, width: nat, w: Window, pos: nat, n: int)
    requires width >= HEADER_SIZE && Full(buf, width, w) && pos <= |buf|
    ensures Affords(buf, WindowedSegments(buf, width, false, w, pos, Limited(n)), Most(n),
                    AllSteppedOver(buf, width, false, w, pos, Limited(n)))
  {
    hide FrameLen, WindowedSegments, AllSteppedOver, GivesUp, InCorrupt, WellCut, MagicsPassed, Magics;
    var b := Limited(n);
    var segs, places := WindowedSegments(buf, width, false, w, pos, b), AllSteppedOver(buf, width, false, w, pos, b);
    ScanCosts(buf, width, w, pos, n, 0);
    WindowedWellCut(buf, width, false, w, pos, b);
    forall p: nat | FrameLen(buf, p).Some?
      ensures p in places ==> InCorrupt(segs, p)
      ensures InCorrupt(segs, p) && p !in places ==>
                InTail(buf, segs, p) && MagicsPassed(buf, segs, places)
                  + MagicsTo(buf, segs[|segs| - 1], p, places) > Most(n)
    {
      LosesWhatItStepsOver(buf, width, w, pos, b, p);
      ScanCosts(buf, width, w, pos, n, p);
      if InCorrupt(segs, p) && p !in places {
        PastEof(buf, segs, pos, p);
      }
    }
  }

  lemma PastEof(buf: bytes, segs: seq<Segment>, pos: nat, p: nat)
    requires WellCut(buf, segs, pos) && InCorrupt(segs, p) && Eof(segs, pos) <= p
    ensures InTail(buf, segs, p)
  {
    hide FrameLen, WellCut;
    WellCutTiles(buf, segs, pos);
    CorruptIsLater(buf, segs, pos, p);
  }

  /** The budget of the windowed scan is a number of magics: the scan is the one cut of the file in
      which the corrupt ranges that end in a frame hold, places stepped over aside, no more magics
      than that in all and no valid frame, and a valid frame is surrendered to the corrupt tail
      exactly if reaching it would take more. */
  lemma WindowedScanIsTheAffordedCut(buf: bytes, width: nat, w: Window, pos: nat, n: int, segs: seq<Segment>)
    requires width >= HEADER_SIZE && Full(buf, width, w) && WellCut(buf, segs, pos)
    ensures WindowedSegments(buf, width, false, w, pos, Limited(n)) == segs
            <==> Affords(buf, segs, Most(n), AllSteppedOver(buf, width, false, w, pos, Limited(n)))
  {
    hide FrameLen, WindowedSegments, AllSteppedOver, Affords, AffordsFrom, WellCut;
    var found, places := WindowedSegments(buf, width, false, w, pos, Limited(n)),
                         AllSteppedOver(buf, width, false, w, pos, Limited(n));
    WellCutEnds(buf, segs, pos);
    WindowedWellCut(buf, width, false, w, pos, Limited(n));
    ScanAffords(buf, width, w, pos, n);
    StepsAreLater(buf, width, w, pos, Limited(n));
    AffordsIsFrom(buf, segs, pos, Most(n), places);
    AffordsIsFrom(buf, found, pos, Most(n), places);
    if Affords(buf, segs, Most(n), places) {
      AffordedCutIsUnique(buf, found, segs, pos, Most(n), places);
    }
  }

  /** So is the budget of the positioned scan, which steps over nothing. */
  lemma ScanIsTheAffordedCut(buf: bytes, pos: nat, n: int, segs: seq<Segment>)
    requires WellCut(buf, segs, pos)
    ensures Segments(buf, false, pos, Limited(n)) == segs <==> Affords(buf, segs, Most(n), {})
  {
    hide FrameLen, WindowedSegments, AllSteppedOver, Affords, WellCut, Segments;
    var width := |buf| + HEADER_SIZE;
    WellCutEnds(buf, segs, pos);
    SmallFilesScanAlike(buf, width, pos, Limited(n));
    OneWindowScan(buf, width, Window(pos, 0), pos, Limited(n));
    WindowedScanIsTheAffordedCut(buf, width, Window(pos, 0), pos, n, segs);
  }

  // ---- a storm of magics ---------------------------------------------------

  function Storm(k: nat): (r: bytes)
    ensures |r| == 2 * k
    ensures forall j: nat :: j < k ==> r[2 * j] == 0x4d && r[2 * j + 1] == 0x44
  {
    if k == 0 then [] else Storm(k - 1) + MAGIC
  }

  /** The length a header in the storm announces for its value. */
  const STORM_LENGTH: nat := 0x444d_444d

  lemma StormByte(buf: bytes, at: nat, k: nat, i: nat)
    requires HasAt(buf, at, Storm(k)) && i < 2 * k
    ensures buf[at + i] == if i % 2 == 0 then 0x4d else 0x44
  {
    assert buf[at + i] == buf[at..at + |Storm(k)|][i];
    assert i % 2 == 0 ==> i == 2 * (i / 2);
    assert i % 2 == 1 ==> i == 2 * (i / 2) + 1;
  }

  lemma NoFrameInStorm(buf: bytes, at: nat, k: nat, i: nat)
    requires HasAt(buf, at, Storm(k)) && i + 14 <= 2 * k && |buf| < STORM_LENGTH
    ensures FrameLen(buf, at + i).None?
  {
    hide Crc, ReadCrc;
    StormByte(buf, at, k, i);
    if i % 2 == 0 && at + i + HEADER_SIZE <= |buf| {
      var f := buf[at + i + 6..at + i + 10];
      StormByte(buf, at, k, i + 6);
      StormByte(buf, at, k, i + 7);
      StormByte(buf, at, k, i + 8);
      StormByte(buf, at, k, i + 9);
      assert f == [0x4d, 0x44, 0x4d, 0x44];
      assert f[1..] == [0x44, 0x4d, 0x44] && f[1..][1..] == [0x4d, 0x44] && f[1..][1..][1..] == [0x44];
      assert FromLE([0x44]) == 0x44 && FromLE([0x4d, 0x44]) == 0x444d && FromLE([0x44, 0x4d, 0x44]) == 0x44_4d44;
      assert FromLE(f) == 0x4d + 256 * FromLE(f[1..]);
    }
  }

  lemma {:induction false} StormMagics(buf: bytes, at: nat, k: nat, j: nat, hi: nat)
    requires HasAt(buf, at, Storm(k)) && 0 < j <= k && at + 2 * j <= hi
    ensures Magics(buf, at + 1, hi, {}) >= j - 1
    decreases j
  {
    if j > 1 {
      StormMagics(buf, at, k, j - 1, at + 2 * (j - 1));
      MagicsSplit(buf, at + 1, at + 2 * (j - 1), hi, {});
      StormByte(buf, at, k, 2 * (j - 1));
      StormByte(buf, at, k, 2 * (j - 1) + 1);
      assert MagicAt(buf, at + 2 * (j - 1));
    }
  }

  /** A frame, then more magics than the budget allows for and room for a header: whatever follows
      is surrendered, valid frames and all. */
  lemma StormIsSurrendered(head: Image, k: nat, tail: bytes, n: nat)
    requires Fits(head) && n + 9 <= k && Size(head) + 2 * k + |tail| < STORM_LENGTH
    ensures var buf := Layout(head) + Storm(k) + tail;
            Segments(buf, false, 0, Limited(n)) == [Good(0, Size(head)), Bad(Size(head), |buf|)]
  {
    hide FrameLen, Layout, Magics, Storm, Segments, Affords, ImageAt, Record, ReadFrameAt, InCorrupt;
    var buf, at := Layout(head) + Storm(k) + tail, Size(head);
    BodyParts(buf, 0, head);
    assert buf[0..0 + |Layout(head)|] == Layout(head) && buf[at..at + |Storm(k)|] == Storm(k);
    ReadsLayout(buf, 0, head);
    NoFrameInStorm(buf, at, k, 0);
    forall p: nat | FrameLen(buf, p).Some? && at <= p
      ensures Magics(buf, at + 1, p + 1, {}) > n
    {
      if p < at + 2 * (n + 2) {
        NoFrameInStorm(buf, at, k, p - at);
      } else {
        StormMagics(buf, at, k, n + 2, p + 1);
      }
    }
    StormAffords(buf, at, n);
    ScanIsTheAffordedCut(buf, 0, n, [Good(0, at), Bad(at, |buf|)]);
  }

  lemma StormAffords(buf: bytes, at: nat, n: nat)
    requires 0 < at < |buf| && FrameLen(buf, 0) == Some(at) && FrameLen(buf, at).None?
    requires forall p: nat :: FrameLen(buf, p).Some? && at <= p ==> Magics(buf, at + 1, p + 1, {}) > n
    ensures WellCut(buf, [Good(0, at), Bad(at, |buf|)], 0)
    ensures Affords(buf, [Good(0, at), Bad(at, |buf|)], n, {})
  {
    hide FrameLen, Magics;
    var g, t := Good(0, at), Bad(at, |buf|);
    var segs := [g, t];
    assert segs == [g] + [t] && [t] == [t] + [] && segs[1..] == [t] && [t][1..] == [];
    assert WellCut(buf, [t], at);
    PassedCons(buf, t, [], {});
    PassedCons(buf, g, [t], {});
    forall p: nat | InCorrupt(segs, p)
      ensures at <= p < |buf|
    {
      InCorruptCons(g, [t], p);
      InCorruptCons(t, [], p);
    }
  }
}
