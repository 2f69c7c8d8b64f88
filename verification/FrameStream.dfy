// packages/minidb/src/codec.ts: the chunk-fed frame parser.
module FrameStream {
  import opened Wrappers
  import opened Bytes
  import opened Crc32
  import opened FrameCodec
  import opened Recovery

  // ---- what one feed does --------------------------------------------------

  /** Frames taken from a buffer, where the parser stopped, how many bytes of frames it passed,
      and whether it stopped on an error. */
  datatype Drained = Drained(frames: seq<Frame>, stop: nat, consumed: nat, failed: bool)

  function Drain(buf: bytes, pos: nat): (d: Drained)
    requires pos <= |buf|
    ensures d.stop <= |buf|
    decreases |buf| - pos
  {
    if |buf| - pos < HEADER_SIZE then Drained([], pos, 0, false)
    else if buf[pos] != 0x4d || buf[pos + 1] != 0x44 then
      match NextMagic(buf, pos + 1)
      case None => Drained([], pos, 0, true)
      case Some(m) => Drain(buf, m)
    else if |buf| - pos < AnnouncedLen(buf, pos) then Drained([], pos, 0, false)
    else
      match ReadFrameAt(buf, pos)
      case None => Drained([], pos, 0, true)
      case Some((f, n)) =>
        var d := Drain(buf, pos + n);
        Drained([f] + d.frames, d.stop, n + d.consumed, d.failed)
  }

  datatype State = State(pending: bytes, offset: nat)

  /** The state after one chunk; on an error the buffered bytes are those from before. */
  function Fed(st: State, chunk: bytes): (r: (seq<Frame>, State, bool))
  {
    var buf := st.pending + chunk;
    var d := Drain(buf, 0);
    (d.frames, State(if d.failed then st.pending else buf[d.stop..], st.offset + d.consumed), d.failed)
  }

  /** d is `frames` and `passed` bytes, followed by what e still gives. */
  ghost predicate Leads(d: Drained, frames: seq<Frame>, passed: nat, e: Drained) {
    d.frames == frames + e.frames && d.stop == e.stop && d.consumed == passed + e.consumed && d.failed == e.failed
  }

  lemma LeadsNowhere(d: Drained)
    ensures Leads(d, [], 0, d)
  {
  }

  lemma LeadsOn(d: Drained, frames: seq<Frame>, passed: nat, f: Frame, n: nat, e: Drained)
    requires Leads(d, frames, passed, Drained([f] + e.frames, e.stop, n + e.consumed, e.failed))
    ensures Leads(d, frames + [f], passed + n, e)
  {
    assert frames + ([f] + e.frames) == (frames + [f]) + e.frames;
  }

  lemma LeadsEnd(d: Drained, frames: seq<Frame>, passed: nat, e: Drained)
    requires Leads(d, frames, passed, e)
    ensures e.frames == [] ==> d == Drained(frames, e.stop, passed + e.consumed, e.failed)
  {
    assert frames + [] == frames;
  }

  /** The turns the loop can take. */
  lemma DrainCases(buf: bytes, pos: nat)
    requires pos <= |buf|
    ensures |buf| - pos < HEADER_SIZE ==> Drain(buf, pos) == Drained([], pos, 0, false)
    ensures |buf| - pos >= HEADER_SIZE && !(buf[pos] == 0x4d && buf[pos + 1] == 0x44) ==>
              match NextMagic(buf, pos + 1)
              case None => Drain(buf, pos) == Drained([], pos, 0, true)
              case Some(m) => Drain(buf, pos) == Drain(buf, m)
    ensures |buf| - pos >= HEADER_SIZE && buf[pos] == 0x4d && buf[pos + 1] == 0x44 ==>
              if |buf| - pos < AnnouncedLen(buf, pos) then Drain(buf, pos) == Drained([], pos, 0, false)
              else if FrameLen(buf, pos).None? then Drain(buf, pos) == Drained([], pos, 0, true)
              else
                && FrameLen(buf, pos) == Some(AnnouncedLen(buf, pos))
                && var d := Drain(buf, pos + AnnouncedLen(buf, pos));
                   Drain(buf, pos) == Drained([FrameAt(buf, pos)] + d.frames, d.stop,
                                              AnnouncedLen(buf, pos) + d.consumed, d.failed)
  {
    hide Crc, ReadCrc, FrameAt;
  }

  // ---- what any buffer gives ---------------------------------------------------

  /** Frames from `pos` to `stop`, and between them junk: bytes at which no magic begins, up to one
      that does. Junk is only looked at where there is room for a header. */
  ghost predicate Reads(buf: bytes, segs: seq<Segment>, pos: nat, stop: nat)
    decreases |segs|
  {
    if segs == [] then pos == stop
    else
      var s := segs[0];
      && s.lo == pos < s.hi <= |buf|
      && (s.Good? ==> FrameLen(buf, pos) == Some(s.hi - pos))
      && (s.Bad? ==> && pos + HEADER_SIZE <= |buf| && MagicAt(buf, s.hi)
                     && forall i: nat :: pos <= i < s.hi ==> !MagicAt(buf, i))
      && Reads(buf, segs[1..], s.hi, stop)
  }

  /** There the parser waits for more: no room for a header, or a header that announces more. */
  ghost predicate Waits(buf: bytes, stop: nat) {
    stop + HEADER_SIZE > |buf| || (MagicAt(buf, stop) && stop + AnnouncedLen(buf, stop) > |buf|)
  }

  /** There it fails: a header's room and no magic any more, or a whole frame that is not valid. */
  ghost predicate Fails(buf: bytes, stop: nat) {
    stop + HEADER_SIZE <= |buf|
    && ((forall i: nat :: stop <= i ==> !MagicAt(buf, i))
        || (MagicAt(buf, stop) && stop + AnnouncedLen(buf, stop) <= |buf| && FrameLen(buf, stop).None?))
  }

  function FrameBytes(segs: seq<Segment>): int {
    if segs == [] then 0 else (if segs[0].Good? then segs[0].hi - segs[0].lo else 0) + FrameBytes(segs[1..])
  }

  lemma {:induction false} ReadsValid(buf: bytes, segs: seq<Segment>, pos: nat, stop: nat)
    requires Reads(buf, segs, pos, stop)
    ensures AllValid(buf, segs) && pos <= stop && FrameBytes(segs) >= 0 && (pos <= |buf| ==> stop <= |buf|)
    decreases |segs|
  {
    hide FrameLen, AnnouncedLen;
    if segs != [] {
      ReadsValid(buf, segs[1..], segs[0].hi, stop);
      assert forall s :: s in segs ==> s == segs[0] || s in segs[1..];
    }
  }

  /** One stretch of a reading is what the parser takes first. */
  lemma DrainsStretch(buf: bytes, segs: seq<Segment>, pos: nat, stop: nat)
    requires Reads(buf, segs, pos, stop) && segs != []
    ensures var s := segs[0];
            if s.Good? then
              var d := Drain(buf, s.hi);
              Drain(buf, pos) == Drained([FrameAt(buf, pos)] + d.frames, d.stop, s.hi - pos + d.consumed, d.failed)
            else Drain(buf, pos) == Drain(buf, s.hi)
  {
    hide Drain, FrameAt, Crc, ReadCrc;
    DrainCases(buf, pos);
    var s := segs[0];
    if s.Bad? {
      assert !MagicAt(buf, pos);
      FirstMagicIs(buf, pos + 1, s.hi);
    }
  }

  lemma FirstMagicIs(buf: bytes, from: nat, m: nat)
    requires from <= m && MagicAt(buf, m) && forall i: nat :: from <= i < m ==> !MagicAt(buf, i)
    ensures NextMagic(buf, from) == Some(m)
  {
  }

  lemma DrainsNothing(buf: bytes, pos: nat, failed: bool)
    requires pos <= |buf| && if failed then Fails(buf, pos) else Waits(buf, pos)
    ensures Drain(buf, pos) == Drained([], pos, 0, failed)
  {
    hide Drain, Crc, ReadCrc, FrameAt;
    DrainCases(buf, pos);
    if failed && !MagicAt(buf, pos) {
      var m := NextMagic(buf, pos + 1);
      assert m.Some? ==> MagicAt(buf, m.value);
    }
  }

  /** However a buffer is damaged: the parser yields the frames of the reading that ends where it has
      to wait or fails, counts their bytes and none of the junk, and stops there, failing or not. */
  lemma {:induction false} DrainReads(buf: bytes, segs: seq<Segment>, pos: nat, stop: nat, failed: bool)
    requires pos <= |buf| && Reads(buf, segs, pos, stop)
    requires if failed then Fails(buf, stop) else Waits(buf, stop)
    ensures AllValid(buf, segs) && FrameBytes(segs) >= 0 && stop <= |buf|
    ensures Drain(buf, pos) == Drained(Frames(buf, segs), stop, FrameBytes(segs), failed)
    decreases |segs|
  {
    hide Drain, FrameLen, FrameAt, AnnouncedLen, Waits, Fails;
    ReadsValid(buf, segs, pos, stop);
    if segs == [] {
      DrainsNothing(buf, pos, failed);
    } else {
      DrainsStretch(buf, segs, pos, stop);
      DrainReads(buf, segs[1..], segs[0].hi, stop, failed);
    }
  }

  /** Every buffer has such a reading. */
  lemma {:induction false} EveryBufferReads(buf: bytes, pos: nat) returns (segs: seq<Segment>, stop: nat, failed: bool)
    requires pos <= |buf|
    ensures Reads(buf, segs, pos, stop) && if failed then Fails(buf, stop) else Waits(buf, stop)
    decreases |buf| - pos
  {
    hide Crc, ReadCrc, AnnouncedLen;
    segs, stop, failed := [], pos, false;
    if pos + HEADER_SIZE <= |buf| {
      if FrameLen(buf, pos).Some? {
        var n := FrameLen(buf, pos).value;
        segs, stop, failed := EveryBufferReads(buf, pos + n);
        segs := [Good(pos, pos + n)] + segs;
      } else if !MagicAt(buf, pos) {
        var m := NextMagic(buf, pos);
        if m.Some? {
          segs, stop, failed := EveryBufferReads(buf, m.value);
          segs := [Bad(pos, m.value)] + segs;
        } else {
          failed := true;
        }
      } else {
        failed := pos + AnnouncedLen(buf, pos) <= |buf|;
      }
    }
  }

  class FrameParser {
    var pending: bytes
    var offset: nat

    function Now(): State
      reads this
    {
      State(pending, offset)
    }

    constructor ()
      ensures Now() == State([], 0)
    {
      pending, offset := [], 0;
    }

    /** Yields the frames completed by this chunk; `error` is the offset a corrupt frame is
        reported at, the sum of `offset` and the place in the buffer. */
    method Feed(chunk: bytes) returns (frames: seq<Frame>, error: Option<nat>)
      modifies this
      ensures (frames, Now(), error.Some?) == Fed(old(Now()), chunk)
      ensures error.Some? ==> error == Some(offset + Drain(old(pending) + chunk, 0).stop)
    {
      hide FrameLen, FrameAt, AnnouncedLen, Drain, Leads;
      var buf := pending + chunk;
      var pos := 0;
      frames, error := [], None;
      ghost var d := Drain(buf, 0);
      LeadsNowhere(d);
      while true
        invariant pos <= |buf| && pending == old(pending) && error.None? && offset >= old(offset)
        invariant Leads(d, frames, offset - old(offset), Drain(buf, pos))
        decreases |buf| - pos
      {
        DrainCases(buf, pos);
        LeadsEnd(d, frames, offset - old(offset), Drain(buf, pos));
        if |buf| - pos < HEADER_SIZE { break; }
        if buf[pos] != 0x4d || buf[pos + 1] != 0x44 {
          var next := NextMagic(buf, pos + 1);
          if next.None? { return frames, Some(offset + pos); }
          pos := next.value;
          continue;
        }
        var frameLen := AnnouncedLen(buf, pos);
        if |buf| - pos < frameLen { break; }
        var r := ReadFrameAt(buf, pos);
        if r.None? { return frames, Some(offset + pos); }
        LeadsOn(d, frames, offset - old(offset), r.value.0, frameLen, Drain(buf, pos + frameLen));
        frames := frames + [r.value.0];
        pos := pos + frameLen;
        offset := offset + frameLen;
      }
      pending := buf[pos..];
    }

    /** End of stream: buffered bytes are a torn tail, reported where valid data ends. */
    method Finish() returns (r: Result<nat, nat>)
      modifies this
      ensures r == if old(pending) != [] then Err(old(offset)) else Ok(old(offset))
      ensures pending == [] && offset == old(offset)
    {
      if pending != [] {
        pending := [];
        return Err(offset);
      }
      r := Ok(offset);
    }
  }

  // ---- whole streams -------------------------------------------------------

  datatype Run = Run(frames: seq<Frame>, state: State, failed: bool)

  /** Feeding chunk after chunk, up to the first error. */
  function FeedAll(st: State, chunks: seq<bytes>): Run
    decreases |chunks|
  {
    if chunks == [] then Run([], st, false)
    else
      var (fs, st', failed) := Fed(st, chunks[0]);
      if failed then Run(fs, st', true)
      else
        var r := FeedAll(st', chunks[1..]);
        Run(fs + r.frames, r.state, r.failed)
  }

  ghost predicate AllFit(images: seq<Image>) {
    forall i :: i in images ==> Fits(i)
  }

  function Written(images: seq<Image>): bytes {
    if images == [] then [] else Layout(images[0]) + Written(images[1..])
  }

  function Records(images: seq<Image>): seq<Frame>
    requires AllFit(images)
  {
    if images == [] then [] else [Record(images[0])] + Records(images[1..])
  }

  function TotalSize(images: seq<Image>): nat {
    if images == [] then 0 else Size(images[0]) + TotalSize(images[1..])
  }

  /** How many of the images lie wholly inside the first n bytes written. */
  function Whole(images: seq<Image>, n: nat): (k: nat)
    ensures k <= |images|
  {
    if images == [] || n < Size(images[0]) then 0
    else 1 + Whole(images[1..], n - Size(images[0]))
  }

  lemma {:induction false} WrittenSize(images: seq<Image>)
    requires AllFit(images)
    ensures |Written(images)| == TotalSize(images)
  {
    hide Layout;
    if images != [] {
      assert Fits(images[0]);
      BodyParts([], 0, images[0]);
      WrittenSize(images[1..]);
    }
  }

  /** The images counted fit, and one more would not. */
  lemma {:induction false} WholeFits(images: seq<Image>, n: nat)
    ensures TotalSize(images[..Whole(images, n)]) <= n
    ensures Whole(images, n) < |images| ==> n < TotalSize(images[..Whole(images, n) + 1])
    ensures Whole(images[Whole(images, n)..], n - TotalSize(images[..Whole(images, n)])) == 0
  {
    if images != [] && n >= Size(images[0]) {
      var k := Whole(images, n);
      WholeFits(images[1..], n - Size(images[0]));
      assert images[..k][1..] == images[1..][..k - 1];
      assert images[k..] == images[1..][k - 1..];
      if k < |images| {
        assert images[..k + 1][1..] == images[1..][..k];
      }
    } else if images != [] {
      assert images[..1][1..] == [];
    }
  }

  lemma {:induction false} WholeSplit(images: seq<Image>, m: nat, n: nat)
    requires m <= n
    ensures var k := Whole(images, m);
            && TotalSize(images[..k]) <= n
            && Whole(images, n) == k + Whole(images[k..], n - TotalSize(images[..k]))
  {
    if images != [] && m >= Size(images[0]) {
      var k := Whole(images, m);
      WholeSplit(images[1..], m - Size(images[0]), n - Size(images[0]));
      assert images[..k][1..] == images[1..][..k - 1];
      assert images[k..] == images[1..][k - 1..];
    }
  }

  lemma {:induction false} PrefixOfSplit(images: seq<Image>, k: nat)
    requires k <= |images| && AllFit(images)
    ensures AllFit(images[..k]) && AllFit(images[k..])
    ensures Records(images) == Records(images[..k]) + Records(images[k..])
    ensures Written(images) == Written(images[..k]) + Written(images[k..])
    ensures TotalSize(images) == TotalSize(images[..k]) + TotalSize(images[k..])
  {
    hide Layout, Record, Fits, Size;
    assert forall i :: i in images[..k] || i in images[k..] ==> i in images;
    if k == 0 {
      assert images[..0] == [] && images[0..] == images;
    } else {
      PrefixOfSplit(images[1..], k - 1);
      assert images[..k][1..] == images[1..][..k - 1];
      assert images[k..] == images[1..][k - 1..];
      var front, back := images[1..][..k - 1], images[k..];
      assert [Record(images[0])] + (Records(front) + Records(back))
             == ([Record(images[0])] + Records(front)) + Records(back);
      assert Layout(images[0]) + (Written(front) + Written(back))
             == (Layout(images[0]) + Written(front)) + Written(back);
    }
  }

  /** A first frame whose header has arrived announces its own size. */
  lemma HeaderArrived(buf: bytes, pos: nat, i: Image)
    requires Fits(i) && pos + HEADER_SIZE <= |buf| && buf[pos..] <= Layout(i)
    ensures buf[pos] == 0x4d && buf[pos + 1] == 0x44 && AnnouncedLen(buf, pos) == Size(i)
  {
    hide Crc, CrcBytes;
    var whole := buf[..pos] + Layout(i);
    BodyParts(whole, pos, i);
    assert whole[pos..pos + |Layout(i)|] == Layout(i);
    LayoutParts(whole, pos, i);
    HeaderFields(whole, pos, i);
    assert buf <= whole;
    assert forall lo: nat, hi: nat :: lo <= hi <= |buf| ==> buf[lo..hi] == whole[lo..hi];
  }

  /** What stands at the front of a buffer that holds the beginning of a run of images. */
  lemma FirstImage(images: seq<Image>, buf: bytes, pos: nat)
    requires AllFit(images) && images != [] && pos + HEADER_SIZE <= |buf| && buf[pos..] <= Written(images)
    ensures buf[pos] == 0x4d && buf[pos + 1] == 0x44 && AnnouncedLen(buf, pos) == Size(images[0])
    ensures pos + Size(images[0]) <= |buf| ==>
              && FrameLen(buf, pos) == Some(Size(images[0]))
              && Fits(images[0]) && FrameAt(buf, pos) == Record(images[0])
              && buf[pos + Size(images[0])..] <= Written(images[1..])
  {
    hide Layout, FrameLen, AnnouncedLen, Record, FrameAt, HasHeader, HasPayload, ImageAt;
    var i := images[0];
    assert i in images;
    BodyParts(buf, pos, i);
    assert Written(images)[..Size(i)] == Layout(i);
    HeaderArrivedIn(buf, pos, i, Written(images));
    if |buf| - pos >= Size(i) {
      assert buf[pos..pos + Size(i)] == buf[pos..][..Size(i)] == Layout(i);
      ReadsLayout(buf, pos, i);
      assert buf[pos + Size(i)..] == buf[pos..][Size(i)..] <= Written(images)[Size(i)..] == Written(images[1..]);
    }
  }

  /** Draining a buffer that holds the beginning of a run of images takes out exactly the images
      that are wholly there, and stops where they end. */
  lemma {:induction false} DrainsWholeImages(images: seq<Image>, buf: bytes, pos: nat)
    requires AllFit(images) && pos <= |buf| && buf[pos..] <= Written(images)
    ensures var k := Whole(images, |buf| - pos);
            var done := TotalSize(images[..k]);
            && AllFit(images[..k])
            && pos + done <= |buf|
            && Drain(buf, pos) == Drained(Records(images[..k]), pos + done, done, false)
    decreases |images|
  {
    hide Written, FrameLen, AnnouncedLen, Record, FrameAt, Drain;
    WholeFits(images, |buf| - pos);
    PrefixOfSplit(images, Whole(images, |buf| - pos));
    DrainCases(buf, pos);
    if images == [] {
      NothingWritten(images);
    } else if |buf| - pos >= HEADER_SIZE {
      FirstImage(images, buf, pos);
      if |buf| - pos >= Size(images[0]) {
        DrainsWholeImages(images[1..], buf, pos + Size(images[0]));
        var k := Whole(images, |buf| - pos);
        assert images[..k][1..] == images[1..][..k - 1];
      }
    }
  }

  lemma NothingWritten(images: seq<Image>)
    requires images == []
    ensures Written(images) == [] && AllFit(images) && Records(images) == [] && TotalSize(images) == 0
  {
  }

  lemma HeaderArrivedIn(buf: bytes, pos: nat, i: Image, whole: bytes)
    requires Fits(i) && pos + HEADER_SIZE <= |buf|
    requires Size(i) <= |whole| && whole[..Size(i)] == Layout(i) && buf[pos..] <= whole
    ensures buf[pos] == 0x4d && buf[pos + 1] == 0x44 && AnnouncedLen(buf, pos) == Size(i)
  {
    hide Layout;
    BodyParts(buf, pos, i);
    var seen := buf[..Min(|buf|, pos + Size(i))];
    assert seen[pos..] == whole[..Min(|buf| - pos, Size(i))];
    HeaderArrived(seen, pos, i);
    assert forall lo: nat, hi: nat :: lo <= hi <= |seen| ==> buf[lo..hi] == seen[lo..hi];
  }

  /** One chunk of such a stream. */
  lemma ChunkStep(images: seq<Image>, st: State, chunk: bytes, later: bytes)
    requires AllFit(images) && st.pending + chunk + later <= Written(images)
    ensures var buf := st.pending + chunk;
            var k := Whole(images, |buf|);
            var done := TotalSize(images[..k]);
            && AllFit(images[..k]) && AllFit(images[k..]) && done <= |buf|
            && Fed(st, chunk) == (Records(images[..k]), State(buf[done..], st.offset + done), false)
            && buf[done..] + later <= Written(images[k..])
            && Whole(images[k..], |buf[done..]|) == 0
  {
    hide Written, Record, Records, Drain;
    var buf := st.pending + chunk;
    assert buf[0..] == buf <= Written(images);
    DrainsWholeImages(images, buf, 0);
    var k := Whole(images, |buf|);
    var done := TotalSize(images[..k]);
    WholeFits(images, |buf|);
    PrefixOfSplit(images, k);
    WrittenSize(images[..k]);
    assert buf[done..] + later == (buf + later)[done..] <= Written(images)[done..] == Written(images[k..]);
  }

  lemma StepsCompose(images: seq<Image>, m: nat, n: nat)
    requires AllFit(images) && m <= n
    ensures var k := Whole(images, m);
            && TotalSize(images[..k]) <= m
            && var j := Whole(images[k..], n - TotalSize(images[..k]));
            && Whole(images, n) == k + j
            && AllFit(images[..k + j]) && AllFit(images[..k]) && AllFit(images[k..][..j])
            && TotalSize(images[..k + j]) == TotalSize(images[..k]) + TotalSize(images[k..][..j])
            && Records(images[..k + j]) == Records(images[..k]) + Records(images[k..][..j])
  {
    hide Record, Records, TotalSize, Written, Whole, Fits;
    WholeFits(images, m);
    WholeSplit(images, m, n);
    var k := Whole(images, m);
    var j := Whole(images[k..], n - TotalSize(images[..k]));
    assert images[..k + j][..k] == images[..k] && images[..k + j][k..] == images[k..][..j];
    assert forall i :: i in images[..k + j] ==> i in images;
    PrefixOfSplit(images[..k + j], k);
  }

  /** Chunk independence: however the beginning of a run of images is cut into chunks, feeding
      them yields the records wholly inside, in order and without an error, the offset is where
      they end, and the rest is still buffered. */
  lemma {:induction false} ChunksYieldWholeImages(images: seq<Image>, chunks: seq<bytes>, st: State)
    requires AllFit(images) && st.pending + Join(chunks) <= Written(images)
    requires Whole(images, |st.pending|) == 0
    ensures var fed := st.pending + Join(chunks);
            var k := Whole(images, |fed|);
            var done := TotalSize(images[..k]);
            && AllFit(images[..k])
            && done <= |fed|
            && FeedAll(st, chunks) == Run(Records(images[..k]), State(fed[done..], st.offset + done), false)
    decreases |chunks|
  {
    hide Written, Record, Whole, Fed, Records, TotalSize, Fits;
    NothingWritten(images[..0]);
    var fed := st.pending + Join(chunks);
    WholeFits(images, |fed|);
    if chunks == [] {
      assert fed == st.pending && images[..0] == [];
    } else {
      var buf := st.pending + chunks[0];
      assert fed == buf + Join(chunks[1..]);
      ChunkStep(images, st, chunks[0], Join(chunks[1..]));
      StepsCompose(images, |buf|, |fed|);
      var k := Whole(images, |buf|);
      var done := TotalSize(images[..k]);
      var next := State(buf[done..], st.offset + done);
      assert fed[done..] == next.pending + Join(chunks[1..]);
      ChunksYieldWholeImages(images[k..], chunks[1..], next);
    }
  }

  /** From the start: after all the chunks of a whole run of images every record has been yielded,
      and the end of the stream is reported as the total length; after the chunks of a part of it
      that does not end where a record ends, as a torn tail where the last whole record ends. */
  lemma StreamIsChunkIndependent(images: seq<Image>, chunks: seq<bytes>)
    requires AllFit(images) && Join(chunks) <= Written(images)
    ensures var r := FeedAll(State([], 0), chunks);
            var k := Whole(images, |Join(chunks)|);
            && AllFit(images[..k])
            && !r.failed && r.frames == Records(images[..k]) && r.state.offset == TotalSize(images[..k])
            && (r.state.pending == [] <==> |Join(chunks)| == TotalSize(images[..k]))
            && (Join(chunks) == Written(images) ==>
                  k == |images| && r.frames == Records(images) && r.state == State([], |Written(images)|))
  {
    hide Written, Record, Whole, FeedAll;
    var n := |Join(chunks)|;
    assert [] + Join(chunks) == Join(chunks);
    WholeFits(images, 0);
    ChunksYieldWholeImages(images, chunks, State([], 0));
    WholeFits(images, n);
    WrittenSize(images);
    var k := Whole(images, n);
    if Join(chunks) == Written(images) && k < |images| {
      PrefixOfSplit(images, k + 1);
    }
    assert images[..|images|] == images;
  }
}
