// packages/kaos/src/local.ts: chunked line reading, the backward tail scan and the text scan.
// A file is read as any list of non-empty chunks.
module TextIO {
  import opened Wrappers
  import opened Bytes
  import opened Lines
  import U = Utf8

  const LF: byte := 0x0a
  const CR: byte := 0x0d

  /** A line handed to the decoder, with the file offset it starts at. */
  datatype Yielded = Yielded(line: bytes, offset: nat)

  function Max(a: int, b: int): int {
    if a < b then b else a
  }

  /** Lines with the offsets they start at. */
  function Located(ls: seq<bytes>): seq<Yielded>
    decreases |ls|
  {
    if ls == [] then []
    else Located(ls[..|ls| - 1]) + [Yielded(ls[|ls| - 1], |Flatten(ls[..|ls| - 1])|)]
  }

  lemma LocatedSnoc(ls: seq<bytes>, l: bytes)
    ensures Located(ls + [l]) == Located(ls) + [Yielded(l, |Flatten(ls)|)]
  {
    assert (ls + [l])[..|ls + [l]| - 1] == ls;
  }

  lemma {:induction false} LocatedLength(ls: seq<bytes>)
    ensures |Located(ls)| == |ls|
    ensures forall k :: 0 <= k < |ls| ==> Located(ls)[k] == Yielded(ls[k], |Flatten(ls[..k])|)
    decreases |ls|
  {
    if ls != [] {
      var n := |ls| - 1;
      LocatedLength(ls[..n]);
      assert forall k :: 0 <= k < n ==> ls[..n][..k] == ls[..k];
    }
  }

  lemma {:induction false} LocatedPrefix(a: seq<bytes>, b: seq<bytes>)
    requires a <= b
    ensures Located(a) <= Located(b)
    decreases |b|
  {
    if a == b {
    } else {
      LocatedPrefix(a, b[..|b| - 1]);
    }
  }

  /** From line startLine on (lines count from 1), at most maxLines of them, but never fewer than
      one when there is one. */
  function Selected<T>(all: seq<T>, startLine: int, maxLines: Option<int>): seq<T> {
    var from := all[Min(|all|, Max(0, startLine - 1))..];
    if maxLines.None? then from else from[..Min(|from|, Max(1, maxLines.value))]
  }

  /** Line i of those selected is line startLine + i of the file, or from the first on for a startLine
      below it; there are as many as asked for, one at least, unless the file ends before. */
  lemma SelectedAre<T>(all: seq<T>, startLine: int, maxLines: Option<int>)
    ensures var got, first := Selected(all, startLine, maxLines), if startLine < 1 then 1 else startLine;
            var left := if first <= |all| then |all| - first + 1 else 0;
            && |got| == (if maxLines.None? then left else Min(left, if maxLines.value < 1 then 1 else maxLines.value))
            && forall i :: 0 <= i < |got| ==> got[i] == all[first - 1 + i]
  {
  }

  // ---- streaming lines -----------------------------------------------------

  /** The reader's variables between two bytes: `fed` read so far, of which the last `held` bytes
      of the current chunk are not in `pending` yet. */
  ghost predicate Reading(fed: bytes, ls: seq<bytes>, pending: seq<bytes>, held: bytes,
                          pendingOffset: nat, lineOffset: nat, lineNo: nat) {
    && Split(fed, LF) == Cut(ls, Flatten(pending) + held)
    && lineNo == |ls| + 1
    && (forall p :: p in pending ==> p != [])
    && (if pending == [] then lineOffset == |Flatten(ls)| else pendingOffset == |Flatten(ls)|)
  }

  lemma NoPending(pending: seq<bytes>)
    requires forall p :: p in pending ==> p != []
    ensures pending == [] <==> Flatten(pending) == []
  {
    if pending != [] {
      assert pending[|pending| - 1] in pending;
    }
  }

  /** What is yielded once the terminated lines are `ls`. */
  ghost predicate YieldedSoFar(out: seq<Yielded>, ls: seq<bytes>, startLine: int, maxLines: Option<int>) {
    && out == Located(ls)[Min(|Located(ls)|, Max(0, startLine - 1))..]
    && (maxLines.Some? ==> out == [] || |out| < maxLines.value)
  }

  lemma YieldLine(out: seq<Yielded>, ls: seq<bytes>, l: bytes, startLine: int, maxLines: Option<int>)
    requires YieldedSoFar(out, ls, startLine, maxLines)
    ensures var next := if |ls| + 1 >= startLine then out + [Yielded(l, |Flatten(ls)|)] else out;
            && |Located(ls + [l])| == |ls| + 1
            && next == Located(ls + [l])[Min(|ls| + 1, Max(0, startLine - 1))..]
            && (|ls| + 1 < startLine ==> next == [])
  {
    hide Located;
    LocatedSnoc(ls, l);
    LocatedLength(ls);
    var x, m := Yielded(l, |Flatten(ls)|), Max(0, startLine - 1);
    if m <= |ls| {
      DropSnoc(Located(ls), x, m);
    } else {
      assert out == [];
    }
  }

  lemma DropSnoc<T>(all: seq<T>, x: T, m: nat)
    requires m <= |all|
    ensures (all + [x])[m..] == all[m..] + [x]
  {
  }

  /** Stopping early yields what reading on would have yielded. */
  lemma StopEarly(out: seq<Yielded>, ls: seq<bytes>, all: seq<bytes>, startLine: int, maxLines: int)
    requires ls <= all && out != [] && |out| == Max(1, maxLines)
    requires out == Located(ls)[Min(|Located(ls)|, Max(0, startLine - 1))..]
    ensures out == Selected(Located(all), startLine, Some(maxLines))
  {
    LocatedPrefix(ls, all);
  }

  lemma LinesExtend(fed: bytes, whole: bytes)
    requires fed <= whole
    ensures Split(fed, LF).lines <= LinesOf(whole, LF)
  {
    assert whole == fed + whole[|fed|..];
    SplitGrows(fed, whole[|fed|..], LF);
  }

  lemma StartReading(startLine: int, maxLines: Option<int>)
    ensures Reading([], [], [], [], 0, 0, 1) && YieldedSoFar([], [], startLine, maxLines)
  {
  }

  lemma SplitLength(fed: bytes)
    ensures |Flatten(Split(fed, LF).lines)| + |Split(fed, LF).rest| == |fed|
  {
    SplitIsCut(fed, LF);
  }

  lemma AllRead(out: seq<Yielded>, all: seq<bytes>, startLine: int, maxLines: Option<int>)
    requires out == Located(all)[Min(|Located(all)|, Max(0, startLine - 1))..]
    requires maxLines.Some? ==> |out| <= Max(1, maxLines.value)
    ensures out == Selected(Located(all), startLine, maxLines)
  {
  }

  /** A byte that is no terminator is held. */
  lemma HoldByte(fed: bytes, ls: seq<bytes>, pending: seq<bytes>, held: bytes,
                 pendingOffset: nat, lineOffset: nat, lineNo: nat, x: byte)
    requires Reading(fed, ls, pending, held, pendingOffset, lineOffset, lineNo) && x != LF
    ensures Reading(fed + [x], ls, pending, held + [x], pendingOffset, lineOffset, lineNo)
  {
    SplitSnoc(fed, x, LF);
    assert (Flatten(pending) + held) + [x] == Flatten(pending) + (held + [x]);
  }

  /** A terminator ends the line held. */
  lemma EndLine(fed: bytes, ls: seq<bytes>, pending: seq<bytes>, held: bytes,
                pendingOffset: nat, lineOffset: nat, lineNo: nat, x: byte) returns (line: bytes)
    requires Reading(fed, ls, pending, held, pendingOffset, lineOffset, lineNo) && x == LF
    ensures line == Flatten(pending + [held + [x]])
    ensures (if pending == [] then lineOffset else pendingOffset) == |Flatten(ls)|
    ensures Split(fed + [x], LF) == Cut(ls + [line], [])
    ensures Reading(fed + [x], ls + [line], [], [], pendingOffset, |fed| + 1, lineNo + 1)
  {
    line := Flatten(pending + [held + [x]]);
    FlattenSnoc(pending, held + [x]);
    SplitSnoc(fed, x, LF);
    assert (Flatten(pending) + held) + [x] == line;
    SplitLength(fed + [x]);
  }

  /** What is held at the end of a chunk becomes pending. */
  lemma KeepTail(fed: bytes, ls: seq<bytes>, pending: seq<bytes>, held: bytes,
                 pendingOffset: nat, lineOffset: nat, lineNo: nat)
    requires Reading(fed, ls, pending, held, pendingOffset, lineOffset, lineNo)
    ensures var offset := if pending == [] then lineOffset else pendingOffset;
            if held != [] then Reading(fed, ls, pending + [held], [], offset, |fed|, lineNo)
            else Reading(fed, ls, pending, [], pendingOffset, |fed|, lineNo)
  {
    FlattenSnoc(pending, held);
    assert (Flatten(pending) + held) + [] == Flatten(pending) + held;
    SplitLength(fed);
  }

  lemma LinesAtEnd(whole: bytes, ls: seq<bytes>, pending: seq<bytes>, pendingOffset: nat, lineOffset: nat, lineNo: nat)
    requires Reading(whole, ls, pending, [], pendingOffset, lineOffset, lineNo)
    ensures LinesOf(whole, LF) == if pending == [] then ls else ls + [Flatten(pending)]
    ensures pending != [] ==> pendingOffset == |Flatten(ls)|
    ensures lineNo == |ls| + 1
  {
    NoPending(pending);
    assert Flatten(pending) + [] == Flatten(pending);
  }

  /** Yields the line just ended, and says whether that was the last one wanted. */
  method Yield(out: seq<Yielded>, ghost ls: seq<bytes>, line: bytes, lineOffset: nat, lineNo: nat,
               startLine: int, maxLines: Option<int>) returns (next: seq<Yielded>, enough: bool)
    requires YieldedSoFar(out, ls, startLine, maxLines) && lineOffset == |Flatten(ls)| && lineNo == |ls| + 1
    ensures |Located(ls + [line])| == |ls| + 1
    ensures next == Located(ls + [line])[Min(|ls| + 1, Max(0, startLine - 1))..]
    ensures enough ==> maxLines.Some? && next != [] && |next| == Max(1, maxLines.value)
    ensures !enough ==> YieldedSoFar(next, ls + [line], startLine, maxLines)
  {
    YieldLine(out, ls, line, startLine, maxLines);
    next, enough := out, false;
    if lineNo >= startLine {
      next := out + [Yielded(line, lineOffset)];
      enough := maxLines.Some? && |next| >= maxLines.value;
    }
  }

  /** `rest` is still to come. */
  ghost predicate Ahead(whole: bytes, fed: bytes, rest: bytes) {
    whole == fed + rest
  }

  lemma NextChunk(whole: bytes, fed: bytes, chunks: seq<bytes>, c: nat)
    requires c < |chunks| && Ahead(whole, fed, Join(chunks[c..]))
    ensures Ahead(whole, fed, chunks[c][0..] + Join(chunks[c + 1..]))
  {
    assert chunks[c..][0] == chunks[c] && chunks[c..][1..] == chunks[c + 1..];
    assert chunks[c][0..] == chunks[c];
  }

  lemma NextByte(whole: bytes, fed: bytes, chunk: bytes, i: nat, later: bytes)
    requires i < |chunk| && Ahead(whole, fed, chunk[i..] + later)
    ensures Ahead(whole, fed + [chunk[i]], chunk[i + 1..] + later) && fed + [chunk[i]] <= whole
  {
    assert chunk[i..] + later == [chunk[i]] + (chunk[i + 1..] + later);
    assert fed + ([chunk[i]] + (chunk[i + 1..] + later)) == (fed + [chunk[i]]) + (chunk[i + 1..] + later);
  }

  lemma ChunkDone(whole: bytes, fed: bytes, chunk: bytes, later: bytes)
    requires Ahead(whole, fed, chunk[|chunk|..] + later)
    ensures Ahead(whole, fed, later)
  {
    assert chunk[|chunk|..] + later == later;
  }

  lemma AllDone(whole: bytes, fed: bytes, chunks: seq<bytes>)
    requires Ahead(whole, fed, Join(chunks[|chunks|..]))
    ensures fed == whole
  {
    assert chunks[|chunks|..] == [] && fed + [] == fed;
  }

  lemma AllAhead(chunks: seq<bytes>)
    ensures Ahead(Join(chunks), [], Join(chunks[0..]))
  {
    assert chunks[0..] == chunks && [] + Join(chunks) == Join(chunks);
  }

  /** Reads the file chunk by chunk, holding back what follows the last terminator. */
  method ReadUtf8Lines(chunks: seq<bytes>, startLine: int, maxLines: Option<int>) returns (out: seq<Yielded>)
    requires forall c :: c in chunks ==> c != []
    ensures out == Selected(Located(LinesOf(Join(chunks), LF)), startLine, maxLines)
  {
    hide Located, Selected, Reading, YieldedSoFar, LinesOf, Split, Flatten, Ahead;
    ghost var whole := Join(chunks);
    ghost var fed: bytes := [];
    ghost var ls: seq<bytes> := [];
    out := [];
    var pending: seq<bytes> := [];
    var pendingOffset: nat, fileOffset: nat, lineNo: nat := 0, 0, 1;
    StartReading(startLine, maxLines);
    AllAhead(chunks);
    for c := 0 to |chunks|
      invariant Ahead(whole, fed, Join(chunks[c..])) && fileOffset == |fed|
      invariant Reading(fed, ls, pending, [], pendingOffset, fileOffset, lineNo)
      invariant YieldedSoFar(out, ls, startLine, maxLines)
    {
      var chunk := chunks[c];
      NextChunk(whole, fed, chunks, c);
      var lineStart := 0;
      for i := 0 to |chunk|
        invariant lineStart <= i && |fed| == fileOffset + i
        invariant Ahead(whole, fed, chunk[i..] + Join(chunks[c + 1..]))
        invariant Reading(fed, ls, pending, chunk[lineStart..i], pendingOffset, fileOffset + lineStart, lineNo)
        invariant YieldedSoFar(out, ls, startLine, maxLines)
      {
        assert chunk[lineStart..i + 1] == chunk[lineStart..i] + [chunk[i]];
        NextByte(whole, fed, chunk, i, Join(chunks[c + 1..]));
        if chunk[i] != LF {
          HoldByte(fed, ls, pending, chunk[lineStart..i], pendingOffset, fileOffset + lineStart, lineNo, chunk[i]);
          fed := fed + [chunk[i]];
          continue;
        }
        var piece := chunk[lineStart..i + 1];
        var lineOffset := if pending == [] then fileOffset + lineStart else pendingOffset;
        var line := Flatten(pending + [piece]);
        ghost var _ := EndLine(fed, ls, pending, chunk[lineStart..i], pendingOffset, fileOffset + lineStart, lineNo,
                               chunk[i]);
        var enough;
        out, enough := Yield(out, ls, line, lineOffset, lineNo, startLine, maxLines);
        fed := fed + [chunk[i]];
        ls := ls + [line];
        if enough {
          LinesExtend(fed, whole);
          StopEarly(out, ls, LinesOf(whole, LF), startLine, maxLines.value);
          return;
        }
        pending := [];
        lineStart := i + 1;
        lineNo := lineNo + 1;
        assert chunk[lineStart..i + 1] == [];
      }
      assert chunk[lineStart..|chunk|] == chunk[lineStart..];
      ChunkDone(whole, fed, chunk, Join(chunks[c + 1..]));
      KeepTail(fed, ls, pending, chunk[lineStart..], pendingOffset, fileOffset + lineStart, lineNo);
      if lineStart < |chunk| {
        if pending == [] { pendingOffset := fileOffset + lineStart; }
        pending := pending + [chunk[lineStart..]];
      }
      fileOffset := fileOffset + |chunk|;
    }
    AllDone(whole, fed, chunks);
    LinesAtEnd(whole, ls, pending, pendingOffset, fileOffset, lineNo);
    if pending != [] {
      YieldLine(out, ls, Flatten(pending), startLine, maxLines);
      LastWanted(out, ls, startLine, maxLines);
      if lineNo >= startLine {
        out := out + [Yielded(Flatten(pending), pendingOffset)];
      }
    } else {
      LastWanted(out, ls, startLine, maxLines);
    }
    AllRead(out, LinesOf(whole, LF), startLine, maxLines);
  }

  lemma LastWanted(out: seq<Yielded>, ls: seq<bytes>, startLine: int, maxLines: Option<int>)
    requires YieldedSoFar(out, ls, startLine, maxLines)
    ensures maxLines.Some? ==> out == [] || |out| < maxLines.value
    ensures |Located(ls)| == |ls| && out == Located(ls)[Min(|ls|, Max(0, startLine - 1))..]
  {
    LocatedLength(ls);
  }

  lemma LinesMakeTheFile(file: bytes)
    ensures Flatten(LinesOf(file, LF)) == file
  {
    var c := Split(file, LF);
    SplitIsCut(file, LF);
    if c.rest == [] {
      assert Flatten(c.lines) + c.rest == Flatten(c.lines);
    } else {
      FlattenSnoc(c.lines, c.rest);
    }
  }

  lemma {:induction false} PieceIsThere(ls: seq<bytes>, k: nat)
    requires k < |ls|
    ensures HasAt(Flatten(ls), |Flatten(ls[..k])|, ls[k])
    decreases |ls|
  {
    var n := |ls| - 1;
    var whole, before := Flatten(ls), Flatten(ls[..n]);
    assert whole == before + ls[n];
    if k < n {
      PieceIsThere(ls[..n], k);
      assert ls[..n][..k] == ls[..k];
      var o := |Flatten(ls[..k])|;
      assert whole[o..o + |ls[k]|] == before[o..o + |ls[k]|];
    }
  }

  /** A line yielded is where it is said to be. */
  lemma LinesAreWhereTheySay(file: bytes, k: nat)
    requires k < |LinesOf(file, LF)|
    ensures |Located(LinesOf(file, LF))| == |LinesOf(file, LF)|
    ensures var y := Located(LinesOf(file, LF))[k]; y.line == LinesOf(file, LF)[k] && HasAt(file, y.offset, y.line)
  {
    LocatedLength(LinesOf(file, LF));
    LinesMakeTheFile(file);
    PieceIsThere(LinesOf(file, LF), k);
  }

  // ---- lines of decoded text -----------------------------------------------

  /** Splits text into lines, terminators kept. */
  method SplitLinesKeepingTerminator(text: seq<int>) returns (lines: seq<seq<int>>)
    ensures lines == LinesOf(text, 0x0a)
  {
    lines := [];
    var start := 0;
    for i := 0 to |text|
      invariant 0 <= start <= i
      invariant Split(text[..i], 0x0a) == Cut(lines, text[start..i])
    {
      assert text[..i + 1] == text[..i] + [text[i]];
      SplitSnoc(text[..i], text[i], 0x0a);
      assert text[start..i + 1] == text[start..i] + [text[i]];
      if text[i] == 0x0a {
        lines := lines + [text[start..i + 1]];
        start := i + 1;
      }
    }
    assert text[..|text|] == text && text[start..|text|] == text[start..];
    if start < |text| {
      lines := lines + [text[start..]];
    }
  }

  /** No character spans a line feed. */
  lemma CharactersEndAtLineFeed(l: bytes, rest: bytes)
    requires l != [] && l[|l| - 1] == LF
    ensures U.CharLen(l + rest) == U.CharLen(l)
    ensures U.CharLen(l) > 0 ==> U.CodePoint(l + rest) == U.CodePoint(l)
    ensures U.CharLen(l) < |l| || |l| == 1
  {
    var s := l + rest;
    assert forall k :: 0 <= k < |l| ==> s[k] == l[k];
  }

  lemma {:induction false} DecodeLineByLine(l: bytes, rest: bytes)
    requires l == [] || l[|l| - 1] == LF
    ensures U.Decode(l + rest) == U.Decode(l) + U.Decode(rest)
    decreases |l|
  {
    hide U.CharLen, U.CodePoint;
    if l == [] {
      assert l + rest == rest;
    } else {
      CharactersEndAtLineFeed(l, rest);
      var n := U.CharLen(l);
      var m := if n > 0 then n else 1;
      assert (l + rest)[m..] == l[m..] + rest;
      DecodeLineByLine(l[m..], rest);
    }
  }

  function DecodedLines(ls: seq<bytes>): seq<seq<int>>
    decreases |ls|
  {
    if ls == [] then [] else DecodedLines(ls[..|ls| - 1]) + [U.Decode(ls[|ls| - 1])]
  }

  lemma {:induction false} TerminatedLinesDecode(ls: seq<bytes>)
    requires forall l :: l in ls ==> l != [] && l[|l| - 1] == LF
    ensures Flatten(DecodedLines(ls)) == U.Decode(Flatten(ls))
    ensures Flatten(ls) == [] || Flatten(ls)[|Flatten(ls)| - 1] == LF
    decreases |ls|
  {
    if ls != [] {
      var n := |ls| - 1;
      assert ls[n] in ls;
      TerminatedLinesDecode(ls[..n]);
      DecodeLineByLine(Flatten(ls[..n]), ls[n]);
      FlattenSnoc(DecodedLines(ls[..n]), U.Decode(ls[n]));
    }
  }

  /** In 'ignore' mode decoding line by line is decoding the whole: the decoded lines, put
      together, are the decoded file. */
  lemma DecodedLinesJoinUp(file: bytes)
    ensures Flatten(DecodedLines(LinesOf(file, LF))) == U.Decode(file)
  {
    var c := Split(file, LF);
    SplitIsCut(file, LF);
    TerminatedLinesDecode(c.lines);
    if c.rest != [] {
      DecodeLineByLine(Flatten(c.lines), c.rest);
      assert DecodedLines(c.lines + [c.rest]) == DecodedLines(c.lines) + [U.Decode(c.rest)] by {
        assert (c.lines + [c.rest])[..|c.lines|] == c.lines;
      }
      FlattenSnoc(DecodedLines(c.lines), U.Decode(c.rest));
    } else {
      assert Flatten(c.lines) + [] == Flatten(c.lines);
    }
  }

  // ---- the last lines ------------------------------------------------------

  /** What the scan is after: a place where a line starts, with exactly the last
      min(tailCount, n) lines from there on. */
  ghost predicate StartsTail(file: bytes, start: nat, tailCount: nat) {
    && start <= |file|
    && LinesOf(file, LF) == LinesOf(file[..start], LF) + LinesOf(file[start..], LF)
    && |LinesOf(file[start..], LF)| == Min(tailCount, |LinesOf(file, LF)|)
  }

  lemma WholeFileIsTail(file: bytes, tailCount: nat)
    requires |LinesOf(file, LF)| <= tailCount
    ensures StartsTail(file, 0, tailCount)
  {
    assert file[..0] == [] && file[0..] == file;
    assert LinesOf<byte>([], LF) == [];
  }

  lemma TailBehindLineFeed(file: bytes, start: nat, tailCount: nat)
    requires 0 < start <= |file| && file[start - 1] == LF && tailCount > 0
    requires Count(file[start..], LF) == tailCount - if file[|file| - 1] == LF then 0 else 1
    ensures StartsTail(file, start, tailCount)
  {
    assert file == file[..start] + file[start..];
    NoRestBehindTerminator(file[..start], LF);
    SplitBehindTerminator(file[..start], file[start..], LF);
    LineCount(file[start..], LF);
    if start < |file| {
      assert file[start..][|file| - start - 1] == file[|file| - 1];
    }
  }

  lemma CountFirst(s: bytes)
    requires s != []
    ensures Count(s, LF) == (if s[0] == LF then 1 else 0) + Count(s[1..], LF)
  {
    assert s == [s[0]] + s[1..];
    CountConcat([s[0]], s[1..], LF);
    assert Count([s[0]], LF) == Count<byte>([], LF) + if s[0] == LF then 1 else 0;
  }

  /** Scans one block backwards; `found` counts the line feeds from the block's end on. */
  method ScanBlockBackwards(file: bytes, pos: nat, end: nat, foundLf: nat, needLf: nat)
    returns (found: nat, startOffset: nat)
    requires pos <= end <= |file| && foundLf == Count(file[end..], LF) < needLf
    ensures found <= needLf
    ensures found < needLf ==> found == Count(file[pos..], LF)
    ensures found == needLf ==>
              && pos < startOffset <= end && file[startOffset - 1] == LF
              && Count(file[startOffset..], LF) == needLf - 1
  {
    found, startOffset := foundLf, 0;
    var i := end;
    while i > pos
      invariant pos <= i <= end && found == Count(file[i..], LF) < needLf
    {
      i := i - 1;
      CountFirst(file[i..]);
      assert file[i..][1..] == file[i + 1..];
      if file[i] != LF { continue; }
      found := found + 1;
      if found == needLf {
        startOffset := i + 1;
        break;
      }
    }
  }

  /** The backward scan, block by block. */
  method TailStart(file: bytes, tailCount: nat, block: nat) returns (startOffset: nat)
    requires file != [] && tailCount > 0 && block > 0
    ensures StartsTail(file, startOffset, tailCount)
  {
    var pos: nat := |file|;
    var foundLf: nat, needLf: nat := 0, tailCount;
    startOffset := 0;
    var sawTailBlock := false;
    assert file[|file|..] == [];
    while pos > 0 && foundLf < needLf
      invariant pos <= |file| && foundLf <= needLf
      invariant !sawTailBlock <==> pos == |file|
      invariant needLf == if sawTailBlock && file[|file| - 1] == LF then tailCount + 1 else tailCount
      invariant foundLf < needLf ==> foundLf == Count(file[pos..], LF)
      invariant foundLf == needLf ==>
                  && 0 < startOffset <= |file| && file[startOffset - 1] == LF && sawTailBlock
                  && Count(file[startOffset..], LF) == needLf - 1
      decreases pos
    {
      var readSize := Min(block, pos);
      ghost var end := pos;
      pos := pos - readSize;
      if !sawTailBlock {
        sawTailBlock := true;
        needLf := if file[pos + readSize - 1] == LF then tailCount + 1 else tailCount;
      }
      foundLf, startOffset := ScanBlockBackwards(file, pos, pos + readSize, foundLf, needLf);
    }
    if foundLf < needLf {
      startOffset := 0;
      assert file[0..] == file;
      LineCount(file, LF);
      WholeFileIsTail(file, tailCount);
    } else {
      TailBehindLineFeed(file, startOffset, tailCount);
    }
  }

  /** Yields the last tailCount lines of the file: the tail is read, decoded whole, and split. */
  method ReadTailLines(file: bytes, tailCount: int, block: nat) returns (lines: seq<seq<int>>, ghost start: nat)
    requires block > 0
    ensures tailCount <= 0 || file == [] ==> lines == []
    ensures tailCount > 0 && file != [] ==>
              StartsTail(file, start, tailCount) && lines == LinesOf(U.Decode(file[start..]), 0x0a)
  {
    start := 0;
    if tailCount <= 0 { return [], 0; }
    if |file| == 0 { return [], 0; }
    var startOffset := TailStart(file, tailCount, block);
    var text := U.DecodeUtf8Ignore(file[startOffset..]);
    lines := SplitLinesKeepingTerminator(text);
    start := startOffset;
  }

  /** Splitting decoded text gives the decoded lines, except that a last line without a
      terminator all of whose bytes are dropped gives no line at all. */
  lemma SplittingDecodedText(file: bytes)
    ensures var c := Split(file, LF);
            LinesOf(U.Decode(file), 0x0a)
            == DecodedLines(c.lines) + if U.Decode(c.rest) == [] then [] else [U.Decode(c.rest)]
  {
    var c := Split(file, LF);
    SplitIsCut(file, LF);
    TerminatedLinesDecode(c.lines);
    DecodeLineByLine(Flatten(c.lines), c.rest);
    DecodedIsCut(c);
    CutIsUnique(Cut(DecodedLines(c.lines), U.Decode(c.rest)), U.Decode(file), 0x0a);
  }

  /** A decoded line feed is an encoded one. */
  lemma {:induction false} NoLineFeedDecodes(l: bytes)
    requires LF !in l
    ensures 0x0a !in U.Decode(l)
    decreases |l|
  {
    hide U.CharLen, U.CodePoint;
    if l != [] {
      var n := if U.CharLen(l) > 0 then U.CharLen(l) else 1;
      assert forall x :: x in l[n..] ==> x in l;
      NoLineFeedDecodes(l[n..]);
      if U.CharLen(l) > 0 {
        CodeOfLineFeed(l);
      }
    }
  }

  lemma {:induction false} LineFeedsDecode(l: bytes)
    requires l != [] && l[|l| - 1] == LF && LF !in l[..|l| - 1]
    ensures var d := U.Decode(l); d != [] && d[|d| - 1] == 0x0a && 0x0a !in d[..|d| - 1]
    decreases |l|
  {
    hide U.CharLen, U.CodePoint;
    if |l| == 1 {
      DecodeLineFeed(l);
    } else {
      CharactersEndAtLineFeed(l, []);
      var n := if U.CharLen(l) > 0 then U.CharLen(l) else 1;
      var rest := l[n..];
      assert rest[|rest| - 1] == LF && rest[..|rest| - 1] == l[..|l| - 1][n..];
      LineFeedsDecode(rest);
      if U.CharLen(l) > 0 {
        CodeOfLineFeed(l);
        assert l[0] in l[..|l| - 1];
        var d, e := U.Decode(l), U.Decode(rest);
        assert d[..|d| - 1] == [U.CodePoint(l)] + e[..|e| - 1];
      }
    }
  }

  lemma DecodeLineFeed(l: bytes)
    requires l == [LF]
    ensures U.Decode(l) == [0x0a]
  {
    assert l[1..] == [];
  }

  lemma CodeOfLineFeed(l: bytes)
    requires U.CharLen(l) > 0
    ensures U.CodePoint(l) == 0x0a <==> l[0] == LF
  {
    U.CharacterGoesBack(l);
  }

  lemma {:induction false} DecodedIsCut(c: Cut<byte>)
    requires LF !in c.rest && forall l :: l in c.lines ==> l != [] && l[|l| - 1] == LF && LF !in l[..|l| - 1]
    ensures 0x0a !in U.Decode(c.rest)
    ensures forall d :: d in DecodedLines(c.lines) ==> d != [] && d[|d| - 1] == 0x0a && 0x0a !in d[..|d| - 1]
    decreases |c.lines|
  {
    NoLineFeedDecodes(c.rest);
    if c.lines != [] {
      var n := |c.lines| - 1;
      assert c.lines[n] in c.lines;
      LineFeedsDecode(c.lines[n]);
      DecodedIsCut(Cut(c.lines[..n], c.rest));
    }
  }

  // ---- the text scan -------------------------------------------------------

  ghost predicate HasCrLf(s: bytes) {
    exists i :: 0 <= i < |s| - 1 && s[i] == CR && s[i + 1] == LF
  }

  /** A line feed with no carriage return before it. */
  ghost predicate HasBareLf(s: bytes) {
    exists i :: 0 <= i < |s| && s[i] == LF && (i == 0 || s[i - 1] != CR)
  }

  /** A carriage return followed by something other than a line feed. */
  ghost predicate HasCrInside(s: bytes) {
    exists i :: 0 <= i < |s| - 1 && s[i] == CR && s[i + 1] != LF
  }

  predicate EndsWith(s: bytes, x: byte) {
    s != [] && s[|s| - 1] == x
  }

  lemma CrLfSnoc(s: bytes, x: byte)
    ensures HasCrLf(s + [x]) <==> HasCrLf(s) || (EndsWith(s, CR) && x == LF)
    ensures HasCrInside(s + [x]) <==> HasCrInside(s) || (EndsWith(s, CR) && x != LF)
    ensures HasBareLf(s + [x]) <==> HasBareLf(s) || (!EndsWith(s, CR) && x == LF)
  {
    var t := s + [x];
    assert forall i :: 0 <= i < |s| ==> t[i] == s[i];
    if EndsWith(s, CR) {
      assert t[|s| - 1] == CR && t[|s|] == x;
    }
    if HasCrLf(s) {
      var i :| 0 <= i < |s| - 1 && s[i] == CR && s[i + 1] == LF;
      assert t[i] == CR && t[i + 1] == LF;
    }
    if HasCrInside(s) {
      var i :| 0 <= i < |s| - 1 && s[i] == CR && s[i + 1] != LF;
      assert t[i] == CR && t[i + 1] != LF;
    }
    if HasBareLf(s) {
      var i :| 0 <= i < |s| && s[i] == LF && (i == 0 || s[i - 1] != CR);
      assert t[i] == LF && (i == 0 || t[i - 1] != CR);
    }
    if !EndsWith(s, CR) && x == LF {
      assert t[|s|] == LF;
    }
  }

  class LineEndingFlags {
    var hasCrLf: bool
    var hasLf: bool
    var hasLoneCr: bool

    ghost predicate Describe(s: bytes)
      reads this
    {
      hasCrLf == HasCrLf(s) && hasLf == HasBareLf(s) && hasLoneCr == HasCrInside(s)
    }

    constructor ()
      ensures Describe([])
    {
      hasCrLf, hasLf, hasLoneCr := false, false, false;
    }

    /** Takes one chunk of what comes after `fed`; the last byte's being a carriage return is
        carried over to the next chunk. */
    method UpdateFromBytes(ghost fed: bytes, chunk: bytes, prevWasCr: bool) returns (nowCr: bool)
      requires Describe(fed) && prevWasCr == EndsWith(fed, CR)
      modifies this
      ensures Describe(fed + chunk) && nowCr == EndsWith(fed + chunk, CR)
    {
      nowCr := prevWasCr;
      assert fed + chunk[..0] == fed;
      for i := 0 to |chunk|
        invariant Describe(fed + chunk[..i]) && nowCr == EndsWith(fed + chunk[..i], CR)
      {
        CrLfSnoc(fed + chunk[..i], chunk[i]);
        assert fed + chunk[..i + 1] == (fed + chunk[..i]) + [chunk[i]];
        if chunk[i] == CR {
          if nowCr { hasLoneCr := true; }
          nowCr := true;
        } else if chunk[i] == LF {
          if nowCr {
            hasCrLf := true;
          } else {
            hasLf := true;
          }
          nowCr := false;
        } else {
          if nowCr { hasLoneCr := true; }
          nowCr := false;
        }
      }
      assert chunk[..|chunk|] == chunk;
    }
  }

  datatype TextScan = TextScan(totalLines: nat, endsWithNewline: bool, hasNul: bool,
                               hasCrLf: bool, hasLf: bool, hasLoneCr: bool)

  method CountInChunk(chunk: bytes) returns (lines: nat, nul: bool)
    ensures lines == Count(chunk, LF) && (nul <==> 0 in chunk)
  {
    lines, nul := 0, false;
    for i := 0 to |chunk|
      invariant lines == Count(chunk[..i], LF) && (nul <==> 0 in chunk[..i])
    {
      assert chunk[..i + 1] == chunk[..i] + [chunk[i]];
      CountConcat(chunk[..i], [chunk[i]], LF);
      assert Count([chunk[i]], LF) == Count<byte>([], LF) + if chunk[i] == LF then 1 else 0;
      if chunk[i] == 0 { nul := true; }
      if chunk[i] == LF { lines := lines + 1; }
    }
    assert chunk[..|chunk|] == chunk;
  }

  lemma ThrownOn(whole: bytes, fed: bytes, chunks: seq<bytes>, c: nat)
    requires c < |chunks| && Ahead(whole, fed, Join(chunks[c..])) && !U.Begins(fed + chunks[c])
    ensures !U.WellFormed(whole)
  {
    WholeChunk(whole, fed, chunks, c);
    assert whole == fed + chunks[c] + Join(chunks[c + 1..]);
  }

  /** Scans a file for its line count, its line endings and NUL bytes, in one pass over any
      chunks; None stands for the exception thrown on bytes that are not UTF-8. */
  method ScanTextFile(chunks: seq<bytes>) returns (r: Option<TextScan>)
    requires forall c :: c in chunks ==> c != []
    ensures var file := Join(chunks);
            r == if !U.WellFormed(file) then None
                 else Some(TextScan(|LinesOf(file, LF)|, EndsWith(file, LF), 0 in file,
                                    HasCrLf(file), HasBareLf(file), HasCrInside(file) || EndsWith(file, CR)))
  {
    hide HasCrLf, HasBareLf, HasCrInside, U.WellFormed, U.CheckAll, LinesOf, Ahead, Count, EndsWith;
    ghost var file := Join(chunks);
    ghost var fed: bytes := [];
    var flags := new LineEndingFlags();
    var validator := new U.Validator();
    var totalLines: nat, totalBytes: nat := 0, 0;
    NothingScanned();
    var endsWithNewline, hasNul, prevWasCr := false, false, false;
    AllAhead(chunks);
    assert chunks[0..] == chunks;
    for c := 0 to |chunks|
      invariant Ahead(file, fed, Join(chunks[c..]))
      invariant validator.Valid() && validator.fed == fed
      invariant flags.Describe(fed) && prevWasCr == EndsWith(fed, CR)
      invariant totalLines == Count(fed, LF) && totalBytes == |fed|
      invariant endsWithNewline == EndsWith(fed, LF) && hasNul == (0 in fed)
    {
      var chunk := chunks[c];
      assert chunks[c..][0] == chunk && chunks[c..][1..] == chunks[c + 1..];
      var ok := validator.Write(chunk);
      if !ok {
        ThrownOn(file, fed, chunks, c);
        return None;
      }
      var lines, nul := CountInChunk(chunk);
      assert chunk in chunks;
      JoinFacts(fed, chunk);
      totalLines := totalLines + lines;
      hasNul := hasNul || nul;
      prevWasCr := flags.UpdateFromBytes(fed, chunk, prevWasCr);
      totalBytes := totalBytes + |chunk|;
      endsWithNewline := chunk[|chunk| - 1] == LF;
      WholeChunk(file, fed, chunks, c);
      fed := fed + chunk;
    }
    AllDone(file, fed, chunks);
    assert chunks[|chunks|..] == [];
    var hasLoneCr := flags.hasLoneCr || prevWasCr;
    var ended := validator.End();
    if !ended { return None; }
    LinesInFile(file);
    if totalBytes > 0 && !endsWithNewline { totalLines := totalLines + 1; }
    r := Some(TextScan(totalLines, endsWithNewline, hasNul, flags.hasCrLf, flags.hasLf, hasLoneCr));
  }

  lemma NothingScanned()
    ensures Count<byte>([], LF) == 0 && !EndsWith([], LF) && !EndsWith([], CR)
  {
  }

  lemma JoinFacts(fed: bytes, chunk: bytes)
    ensures Count(fed + chunk, LF) == Count(fed, LF) + Count(chunk, LF)
    ensures chunk != [] ==> EndsWith(fed + chunk, LF) == (chunk[|chunk| - 1] == LF)
    ensures 0 in fed + chunk <==> 0 in fed || 0 in chunk
  {
    CountConcat(fed, chunk, LF);
  }

  lemma LinesInFile(file: bytes)
    ensures |LinesOf(file, LF)| == Count(file, LF) + if file == [] || EndsWith(file, LF) then 0 else 1
  {
    LineCount(file, LF);
  }

  lemma WholeChunk(whole: bytes, fed: bytes, chunks: seq<bytes>, c: nat)
    requires c < |chunks| && Ahead(whole, fed, Join(chunks[c..]))
    ensures Ahead(whole, fed + chunks[c], Join(chunks[c + 1..]))
  {
    assert chunks[c..][0] == chunks[c] && chunks[c..][1..] == chunks[c + 1..];
    assert fed + (chunks[c] + Join(chunks[c + 1..])) == (fed + chunks[c]) + Join(chunks[c + 1..]);
  }
}
