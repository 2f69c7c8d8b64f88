// packages/kosong/src/generate.ts and message.ts: assembling one assistant message from the
// parts a model streams. A streamed part is a value: the provider is taken not to keep or
// reuse the objects it hands out.
module Assembler {
  import opened Wrappers

  /** A provider's streaming index: a number or a string. */
  datatype Index = Num(n: int) | Key(s: string)

  datatype Part =
    | Text(text: string)
    | Think(think: string, encrypted: Option<string>, hidden: Option<bool>)
    | Media(kind: string, url: string)
    | Call(id: string, name: string, arguments: Option<string>, extras: Option<string>, streamIndex: Option<Index>)
    | CallPart(argumentsPart: Option<string>, index: Option<Index>)

  predicate IsContent(p: Part) {
    p.Text? || p.Think? || p.Media?
  }

  /** A tool call as stored: the routing index is stripped. */
  datatype StoredCall = StoredCall(id: string, name: string, arguments: Option<string>, extras: Option<string>)

  function Stored(p: Part): StoredCall
    requires p.Call?
  {
    StoredCall(p.id, p.name, p.arguments, p.extras)
  }

  /** Adds a fragment to arguments so far; a null fragment adds nothing. */
  function AddArgs(args: Option<string>, fragment: Option<string>): Option<string> {
    if fragment.None? then args
    else if args.None? then fragment
    else Some(args.value + fragment.value)
  }

  // ---- merging -------------------------------------------------------------

  /** The target after absorbing the source, or None when the two do not merge. */
  function Merged(target: Part, source: Part): Option<Part> {
    if target.Text? && source.Text? then Some(Text(target.text + source.text))
    else if target.Think? && source.Think? then
      if target.encrypted.Some? then None
      else
        Some(Think(target.think + source.think,
                   if source.encrypted.Some? then source.encrypted else target.encrypted, target.hidden))
    else if target.Call? && source.CallPart? then
      Some(target.(arguments := AddArgs(target.arguments, source.argumentsPart)))
    else None
  }

  // ---- one step ------------------------------------------------------------

  datatype State = State(content: seq<Part>, toolCalls: seq<StoredCall>, indexMap: map<Index, nat>,
                         pending: Option<Part>)

  const FRESH := State([], [], map[], None)

  predicate IsPendingAt(pending: Option<Part>, index: Index) {
    pending.Some? && pending.value.Call? && pending.value.streamIndex == Some(index)
  }

  function Flush(st: State, p: Part): State {
    if IsContent(p) then st.(content := st.content + [p])
    else if p.Call? then
      st.(toolCalls := st.toolCalls + [Stored(p)],
          indexMap := if p.streamIndex.Some? then st.indexMap[p.streamIndex.value := |st.toolCalls|] else st.indexMap)
    else st
  }

  function Step(st: State, p: Part): State {
    if p.CallPart? && p.index.Some? && !IsPendingAt(st.pending, p.index.value) && p.index.value in st.indexMap then
      var k := st.indexMap[p.index.value];
      if k < |st.toolCalls| then
        st.(toolCalls := st.toolCalls[k := st.toolCalls[k].(
              arguments := AddArgs(st.toolCalls[k].arguments, p.argumentsPart))])
      else st
    else if st.pending.None? then st.(pending := Some(p))
    else
      match Merged(st.pending.value, p)
      case Some(q) => st.(pending := Some(q))
      case None => Flush(st, st.pending.value).(pending := Some(p))
  }

  function Run(parts: seq<Part>): State
    decreases |parts|
  {
    if parts == [] then FRESH else Step(Run(parts[..|parts| - 1]), parts[|parts| - 1])
  }

  // ---- the loop ------------------------------------------------------------

  datatype Message = Message(content: seq<Part>, toolCalls: seq<StoredCall>)

  datatype Rejection = EmptyResponse | ThinkOnly

  /** White space as String.prototype.trim sees it. */
  predicate Blank(c: char) {
    || '\U{0009}' <= c <= '\U{000d}' || c == ' ' || c == '\U{00a0}' || c == '\U{1680}'
    || '\U{2000}' <= c <= '\U{200a}' || c == '\U{2028}' || c == '\U{2029}' || c == '\U{202f}'
    || c == '\U{205f}' || c == '\U{3000}' || c == '\U{feff}'
  }

  predicate NonBlank(s: string) {
    exists c :: c in s && !Blank(c)
  }

  predicate HasThink(ps: seq<Part>) {
    exists p :: p in ps && p.Think?
  }

  predicate HasText(ps: seq<Part>) {
    exists p :: p in ps && p.Text? && NonBlank(p.text)
  }

  class Generator {
    var content: seq<Part>
    var toolCalls: seq<StoredCall>
    var indexMap: map<Index, nat>
    var pending: Option<Part>

    function Now(): State
      reads this
    {
      State(content, toolCalls, indexMap, pending)
    }

    constructor ()
      ensures Now() == FRESH
    {
      content, toolCalls, indexMap, pending := [], [], map[], None;
    }

    /** Merges into the pending part in place, when the two are compatible. */
    method MergeInPlace(p: Part) returns (merged: bool)
      requires pending.Some?
      modifies this`pending
      ensures merged <==> Merged(old(pending).value, p).Some?
      ensures pending == if merged then Merged(old(pending).value, p) else old(pending)
    {
      var target := pending.value;
      if target.Text? && p.Text? {
        pending := Some(Text(target.text + p.text));
        return true;
      }
      if target.Think? && p.Think? {
        if target.encrypted.Some? { return false; }
        target := target.(think := target.think + p.think);
        if p.encrypted.Some? {
          target := target.(encrypted := p.encrypted);
        }
        pending := Some(target);
        return true;
      }
      if target.Call? && p.CallPart? {
        if p.argumentsPart.Some? {
          target := target.(arguments := if target.arguments.None? then p.argumentsPart
                                         else Some(target.arguments.value + p.argumentsPart.value));
        }
        pending := Some(target);
        return true;
      }
      merged := false;
    }

    method FlushPart(p: Part)
      modifies this`content, this`toolCalls, this`indexMap
      ensures Now() == Flush(old(Now()), p)
    {
      if IsContent(p) {
        content := content + [p];
        return;
      }
      if p.Call? {
        var ordinal := |toolCalls|;
        toolCalls := toolCalls + [Stored(p)];
        if p.streamIndex.Some? {
          indexMap := indexMap[p.streamIndex.value := ordinal];
        }
      }
    }

    method Consume(p: Part)
      modifies this
      ensures Now() == Step(old(Now()), p)
    {
      if p.CallPart? && p.index.Some? && !IsPendingAt(pending, p.index.value) {
        if p.index.value in indexMap {
          var arrayIdx := indexMap[p.index.value];
          if arrayIdx < |toolCalls| && p.argumentsPart.Some? {
            var target := toolCalls[arrayIdx];
            toolCalls := toolCalls[arrayIdx := target.(
              arguments := if target.arguments.None? then p.argumentsPart
                           else Some(target.arguments.value + p.argumentsPart.value))];
          }
          return;
        }
      }
      if pending.None? {
        pending := Some(p);
      } else {
        var merged := MergeInPlace(p);
        if !merged {
          FlushPart(pending.value);
          pending := Some(p);
        }
      }
    }

    /** End of stream: the last pending part is flushed, and a message with nothing in it, or
        with nothing but thinking, is rejected. */
    method Finish() returns (r: Result<Message, Rejection>)
      modifies this
      ensures r == Final(old(Now()))
    {
      if pending.Some? {
        FlushPart(pending.value);
      }
      if content == [] && toolCalls == [] { return Err(EmptyResponse); }
      if HasThink(content) && !HasText(content) && toolCalls == [] { return Err(ThinkOnly); }
      r := Ok(Message(content, toolCalls));
    }
  }

  function Final(st: State): Result<Message, Rejection> {
    var done := if st.pending.Some? then Flush(st, st.pending.value) else st;
    if done.content == [] && done.toolCalls == [] then Err(EmptyResponse)
    else if HasThink(done.content) && !HasText(done.content) && done.toolCalls == [] then Err(ThinkOnly)
    else Ok(Message(done.content, done.toolCalls))
  }

  method Generate(stream: seq<Part>) returns (r: Result<Message, Rejection>)
    ensures r == Final(Run(stream))
  {
    var g := new Generator();
    for i := 0 to |stream|
      invariant g.Now() == Run(stream[..i])
    {
      assert stream[..i + 1][..i] == stream[..i];
      g.Consume(stream[i]);
    }
    assert stream[..|stream|] == stream;
    r := g.Finish();
  }

  // ---- nothing said is lost ------------------------------------------------

  /** What a part says, character by character, with signatures and media as single tokens. */
  datatype Token = TextChar(c: char) | ThinkChar(t: char) | Signature(s: string) | MediaToken(kind: string, url: string)

  function TokensOf(p: Part): seq<Token> {
    match p
    case Text(text) => seq(|text|, i requires 0 <= i < |text| => TextChar(text[i]))
    case Think(think, encrypted, _) =>
      seq(|think|, i requires 0 <= i < |think| => ThinkChar(think[i]))
      + if encrypted.Some? then [Signature(encrypted.value)] else []
    case Media(kind, url) => [MediaToken(kind, url)]
    case _ => []
  }

  function Tokens(ps: seq<Part>): seq<Token>
    decreases |ps|
  {
    if ps == [] then [] else Tokens(ps[..|ps| - 1]) + TokensOf(ps[|ps| - 1])
  }

  /** The content parts so far, the pending one included. */
  function Held(st: State): seq<Part> {
    if st.pending.Some? && IsContent(st.pending.value) then st.content + [st.pending.value] else st.content
  }

  lemma TokensSnoc(ps: seq<Part>, p: Part)
    ensures Tokens(ps + [p]) == Tokens(ps) + TokensOf(p)
  {
    assert (ps + [p])[..|ps + [p]| - 1] == ps;
  }

  lemma MergedTokens(target: Part, source: Part)
    requires Merged(target, source).Some?
    ensures var q := Merged(target, source).value;
            && TokensOf(q) == TokensOf(target) + TokensOf(source)
            && IsContent(q) == IsContent(target) && q.Think? == target.Think?
            && (target.Text? <==> source.Text?) && (target.Think? <==> source.Think?)
  {
  }

  lemma StepKeepsTokens(st: State, p: Part)
    ensures Tokens(Held(Step(st, p))) == Tokens(Held(st)) + TokensOf(p)
  {
    hide TokensOf, Tokens;
    NoTokens(p);
    if st.pending.Some? {
      var q := st.pending.value;
      NoTokens(q);
      TokensSnoc(st.content, q);
      if Merged(q, p).Some? {
        MergedTokens(q, p);
        TokensSnoc(st.content, Merged(q, p).value);
        assert Tokens(st.content) + (TokensOf(q) + TokensOf(p)) == (Tokens(st.content) + TokensOf(q)) + TokensOf(p);
      } else {
        TokensSnoc(st.content + [q], p);
        TokensSnoc(st.content, p);
      }
    } else {
      TokensSnoc(st.content, p);
    }
  }

  lemma NoTokens(p: Part)
    ensures !IsContent(p) ==> TokensOf(p) == [] && forall ts: seq<Token> :: ts + TokensOf(p) == ts
  {
  }

  /** Every character of text and of thinking, every signature and every medium of the stream is
      in the message, once, in the order streamed; and nothing else is. */
  lemma {:induction false} ContentIsConserved(stream: seq<Part>)
    ensures Tokens(Held(Run(stream))) == Tokens(stream)
    decreases |stream|
  {
    hide TokensOf, Step, Held;
    if stream == [] {
      NothingHeld();
    } else {
      var n := |stream| - 1;
      ContentIsConserved(stream[..n]);
      StepKeepsTokens(Run(stream[..n]), stream[n]);
    }
  }

  lemma NothingHeld()
    ensures Held(FRESH) == []
  {
  }

  // ---- one part per run ----------------------------------------------------

  /** The part is a fragment sent straight to a stored call. */
  predicate Routed(st: State, p: Part) {
    p.CallPart? && p.index.Some? && !IsPendingAt(st.pending, p.index.value) && p.index.value in st.indexMap
  }

  /** The last part of a stream that is not a fragment, if it is a call. */
  function OpenCall(stream: seq<Part>): (r: Option<Part>)
    ensures r.Some? ==> r.value.Call?
    decreases |stream|
  {
    if stream == [] then None
    else
      var p := stream[|stream| - 1];
      if p.Call? then Some(p) else if p.CallPart? then OpenCall(stream[..|stream| - 1]) else None
  }

  /** The calls announced, without the open one. */
  function ClosedCalls(stream: seq<Part>): seq<Part> {
    var hs := Headers(stream);
    if OpenCall(stream).Some? && hs != [] then hs[..|hs| - 1] else hs
  }

  /** On the stream alone: a fragment with the index of a call that is closed, unless the open call
      has it too. */
  ghost predicate GoesBack(before: seq<Part>, p: Part) {
    && p.CallPart? && p.index.Some?
    && (OpenCall(before).Some? ==> OpenCall(before).value.streamIndex != p.index)
    && exists h :: h in ClosedCalls(before) && h.Call? && h.streamIndex == p.index
  }

  /** What a state knows of the stream. */
  ghost predicate Tracks(st: State, stream: seq<Part>) {
    && (CallPending(st) <==> OpenCall(stream).Some?)
    && (CallPending(st) ==> OpenCall(stream).value.streamIndex == st.pending.value.streamIndex)
    && EndsOpen(stream)
    && (forall x :: x in st.indexMap <==> exists h :: h in ClosedCalls(stream) && h.Call? && h.streamIndex == Some(x))
  }

  lemma HeadersSnoc(before: seq<Part>, p: Part)
    ensures Headers(before + [p]) == Headers(before) + if p.Call? then [p] else []
    ensures OpenCall(before + [p]) == if p.Call? then Some(p) else if p.CallPart? then OpenCall(before) else None
  {
    assert (before + [p])[..|before|] == before;
  }

  lemma WithoutLast(hs: seq<Part>, p: Part)
    ensures (hs + [p])[..|hs + [p]| - 1] == hs
    ensures hs != [] && hs[|hs| - 1] == p ==> hs[..|hs| - 1] + [p] == hs
  {
  }

  /** A call is closed by the next part that is not a fragment. */
  lemma OpenStep(before: seq<Part>, p: Part)
    requires EndsOpen(before)
    ensures var stream := before + [p];
            && EndsOpen(stream)
            && OpenCall(stream) == (if p.Call? then Some(p) else if p.CallPart? then OpenCall(before) else None)
            && ClosedCalls(stream) == ClosedCalls(before) + if p.CallPart? || OpenCall(before).None? then []
                                                            else [OpenCall(before).value]
  {
    hide Headers, OpenCall;
    HeadersSnoc(before, p);
    var hs := Headers(before);
    WithoutLast(hs, p);
    if OpenCall(before).Some? {
      WithoutLast(hs, OpenCall(before).value);
    }
    assert hs + [] == hs && ClosedCalls(before) + [] == ClosedCalls(before);
  }

  ghost predicate EndsOpen(stream: seq<Part>) {
    OpenCall(stream).Some? ==> Headers(stream) != [] && Headers(stream)[|Headers(stream)| - 1] == OpenCall(stream).value
  }

  lemma TracksStep(st: State, before: seq<Part>, p: Part)
    requires Tracks(st, before)
    ensures Tracks(Step(st, p), before + [p])
  {
    hide Step, ClosedCalls, OpenCall, EndsOpen;
    StepShape(st, p);
    OpenStep(before, p);
    var closed, after := ClosedCalls(before), ClosedCalls(before + [p]);
    var t := Step(st, p);
    if CallPending(st) && !p.CallPart? {
      var open := OpenCall(before).value;
      assert after == closed + [open];
      assert forall h :: h in after <==> h in closed || h == open;
      assert forall x :: x in t.indexMap <==> x in st.indexMap || open.streamIndex == Some(x);
    } else {
      assert after == closed;
    }
  }

  lemma {:induction false} TracksAlways(stream: seq<Part>)
    ensures Tracks(Run(stream), stream)
    decreases |stream|
  {
    hide Step;
    if stream != [] {
      var n := |stream| - 1;
      TracksAlways(stream[..n]);
      assert stream == stream[..n] + [stream[n]];
      TracksStep(Run(stream[..n]), stream[..n], stream[n]);
    }
  }

  lemma RoutedGoesBack(before: seq<Part>, p: Part)
    ensures Routed(Run(before), p) <==> GoesBack(before, p)
  {
    TracksAlways(before);
  }

  /** The stream without the fragments that go back to a closed call. */
  ghost function Unrouted(stream: seq<Part>): seq<Part>
    decreases |stream|
  {
    if stream == [] then []
    else
      var before, p := stream[..|stream| - 1], stream[|stream| - 1];
      Unrouted(before) + if GoesBack(before, p) then [] else [p]
  }

  /** The part at i goes on with what the one before it began: text after text, or thinking after
      thinking that was not signed. */
  predicate Continues(ps: seq<Part>, i: nat)
    requires 0 < i < |ps|
  {
    || (ps[i - 1].Text? && ps[i].Text?)
    || (ps[i - 1].Think? && ps[i].Think? && ps[i - 1].encrypted.None?)
  }

  /** Where the last run begins. */
  function RunStart(ps: seq<Part>): (a: nat)
    requires ps != []
    ensures a < |ps|
    ensures forall i :: a < i < |ps| ==> Continues(ps, i)
    ensures a > 0 ==> !Continues(ps, a)
    decreases |ps|
  {
    var n := |ps| - 1;
    if n > 0 && Continues(ps, n) then
      var a := RunStart(ps[..n]);
      assert forall i :: 0 < i < n ==> (Continues(ps[..n], i) <==> Continues(ps, i));
      a
    else n
  }

  function AllText(run: seq<Part>): string
    decreases |run|
  {
    if run == [] then ""
    else
      var p := run[|run| - 1];
      AllText(run[..|run| - 1]) + if p.Text? then p.text else if p.Think? then p.think else ""
  }

  /** What a run amounts to: all its text; all its thinking, hidden as at its beginning and signed as
      at its end. */
  function Joined(run: seq<Part>): Part
    requires run != []
  {
    var first, last := run[0], run[|run| - 1];
    if first.Text? then Text(AllText(run))
    else if first.Think? && last.Think? then Think(AllText(run), last.encrypted, first.hidden)
    else first
  }

  /** One content part for each run. */
  function Contents(ps: seq<Part>): seq<Part>
    decreases |ps|
  {
    if ps == [] then []
    else
      var a := RunStart(ps);
      Contents(ps[..a]) + if IsContent(ps[a]) then [Joined(ps[a..])] else []
  }

  lemma LastRun(ps: seq<Part>, p: Part)
    ensures RunStart(ps + [p]) == if ps != [] && Continues(ps + [p], |ps|) then RunStart(ps) else |ps|
  {
    assert (ps + [p])[..|ps|] == ps;
  }

  lemma {:induction false} RunKinds(ps: seq<Part>, a: nat)
    requires a < |ps| && forall i :: a < i < |ps| ==> Continues(ps, i)
    ensures ps[a].Text? <==> ps[|ps| - 1].Text?
    ensures ps[a].Think? <==> ps[|ps| - 1].Think?
    ensures ps[a].Media? <==> ps[|ps| - 1].Media?
    decreases |ps|
  {
    var n := |ps| - 1;
    if a < n {
      assert Continues(ps, n);
      assert forall i :: a < i < n ==> Continues(ps, i) && Continues(ps[..n], i);
      RunKinds(ps[..n], a);
    }
  }

  lemma OneText(p: Part)
    ensures IsContent(p) ==> Joined([p]) == p
  {
    assert [p][..0] == [];
    assert "" + AllText([p]) == AllText([p]);
  }

  lemma JoinedSnoc(run: seq<Part>, p: Part)
    requires run != []
    requires (run[0].Text? && p.Text?)
             || (run[0].Think? && run[|run| - 1].Think? && p.Think? && run[|run| - 1].encrypted.None?)
    ensures Some(Joined(run + [p])) == Merged(Joined(run), p)
  {
    assert (run + [p])[..|run|] == run;
  }

  /** The pending part is what the last run amounts to, if that is content. */
  ghost predicate HoldsRuns(st: State, ps: seq<Part>) {
    && Held(st) == Contents(ps)
    && (st.pending.Some? <==> ps != [])
    && (ps != [] && IsContent(ps[|ps| - 1]) ==> st.pending == Some(Joined(ps[RunStart(ps)..])))
    && (ps != [] && !IsContent(ps[|ps| - 1]) ==> !IsContent(st.pending.value))
  }

  /** A part that begins a run. */
  lemma BeginsRun(st: State, ps: seq<Part>, p: Part)
    requires HoldsRuns(st, ps) && !Routed(st, p) && (ps == [] || !Continues(ps + [p], |ps|))
    ensures HoldsRuns(Step(st, p), ps + [p])
  {
    var all := ps + [p];
    LastRun(ps, p);
    OneText(p);
    assert all[..|ps|] == ps && all[|ps|..] == [p];
    if ps != [] {
      RunKinds(ps, RunStart(ps));
    }
  }

  /** A part that goes on with one. */
  lemma GoesOnWithRun(st: State, ps: seq<Part>, p: Part)
    requires HoldsRuns(st, ps) && !Routed(st, p) && ps != [] && Continues(ps + [p], |ps|)
    ensures HoldsRuns(Step(st, p), ps + [p])
  {
    var all, a := ps + [p], RunStart(ps);
    LastRun(ps, p);
    RunKinds(ps, a);
    assert all[..a] == ps[..a] && all[a..] == ps[a..] + [p];
    JoinedSnoc(ps[a..], p);
    assert Contents(all) == Contents(ps[..a]) + [Joined(all[a..])];
    assert Contents(ps) == Contents(ps[..a]) + [Joined(ps[a..])];
    assert Held(st)[..|Held(st)| - 1] == Contents(ps[..a]);
  }

  lemma {:induction false} HoldsRunsAlways(stream: seq<Part>)
    ensures HoldsRuns(Run(stream), Unrouted(stream))
    decreases |stream|
  {
    hide Step, Routed, GoesBack, HoldsRuns;
    if stream == [] {
      NothingRun();
    } else {
      var before, p := stream[..|stream| - 1], stream[|stream| - 1];
      var ps := Unrouted(before);
      HoldsRunsAlways(before);
      RoutedGoesBack(before, p);
      if Routed(Run(before), p) {
        RoutedKeepsRuns(Run(before), ps, p);
        assert ps + [] == ps;
      } else if ps != [] && Continues(ps + [p], |ps|) {
        GoesOnWithRun(Run(before), ps, p);
      } else {
        BeginsRun(Run(before), ps, p);
      }
    }
  }

  lemma NothingRun()
    ensures HoldsRuns(FRESH, [])
  {
  }

  lemma RoutedKeepsRuns(st: State, ps: seq<Part>, p: Part)
    requires HoldsRuns(st, ps) && Routed(st, p)
    ensures HoldsRuns(Step(st, p), ps)
  {
  }

  /** The content of the message is one part for each longest run, in the stream without the
      fragments that go back to a closed call, of text or of thinking up to a signature, and one for
      each medium. */
  lemma ContentIsRuns(stream: seq<Part>, r: Message)
    requires Final(Run(stream)) == Ok(r)
    ensures r.content == Contents(Unrouted(stream))
  {
    hide Run, Unrouted, Contents;
    HoldsRunsAlways(stream);
  }

  /** Two parts that could have been one. */
  predicate Mergeable(p: Part, q: Part) {
    (p.Text? && q.Text?) || (p.Think? && q.Think? && p.encrypted.None?)
  }

  /** What may follow the one may follow the other. */
  predicate EndsAlike(p: Part, q: Part) {
    (p.Text? <==> q.Text?) && (p.Think? <==> q.Think?) && (p.Think? ==> p.encrypted == q.encrypted)
  }

  ghost predicate AllContent(ps: seq<Part>) {
    forall p :: p in ps ==> IsContent(p)
  }

  lemma {:induction false} NothingGoesBack(stream: seq<Part>)
    requires AllContent(stream)
    ensures Unrouted(stream) == stream
    decreases |stream|
  {
    if stream != [] {
      var n := |stream| - 1;
      assert stream[n] in stream && stream == stream[..n] + [stream[n]];
      assert forall p :: p in stream[..n] ==> p in stream;
      NothingGoesBack(stream[..n]);
    }
  }

  /** Neighbours in the content end and begin neighbouring runs. */
  lemma {:induction false} ContentsAreApart(ps: seq<Part>)
    requires AllContent(ps)
    ensures var c := Contents(ps);
            && (ps != [] ==> c != [] && EndsAlike(c[|c| - 1], ps[|ps| - 1]))
            && (forall k :: 0 <= k < |c| - 1 ==> !Mergeable(c[k], c[k + 1]))
    decreases |ps|
  {
    hide Contents, RunStart;
    if ps == [] {
      NoContents();
    } else {
      var a := RunStart(ps);
      assert forall p :: p in ps[..a] ==> p in ps;
      ContentsAreApart(ps[..a]);
      RunKinds(ps, a);
      OneMoreRun(ps);
      assert ps[a] in ps;
      var c := Contents(ps[..a]);
      if a > 0 {
        assert !Continues(ps, a) && ps[..a][a - 1] == ps[a - 1];
        assert !Mergeable(c[|c| - 1], Joined(ps[a..]));
      } else {
        assert ps[..a] == [] && c == [] by {
          NoContents();
        }
      }
    }
  }

  lemma NoContents()
    ensures Contents([]) == []
  {
  }

  lemma OneMoreRun(ps: seq<Part>)
    requires ps != [] && IsContent(ps[RunStart(ps)])
    ensures Contents(ps) == Contents(ps[..RunStart(ps)]) + [Joined(ps[RunStart(ps)..])]
  {
  }

  /** So of a stream of content alone no text stands next to a text, and no thinking follows thinking
      that is not signed. */
  lemma ContentAlternates(stream: seq<Part>, r: Message, k: nat)
    requires Final(Run(stream)) == Ok(r) && AllContent(stream) && k + 1 < |r.content|
    ensures !(r.content[k].Text? && r.content[k + 1].Text?)
    ensures !(r.content[k].Think? && r.content[k + 1].Think? && r.content[k].encrypted.None?)
  {
    hide Run, Unrouted, Contents, Final;
    ContentIsRuns(stream, r);
    NothingGoesBack(stream);
    ContentsAreApart(stream);
    assert !Mergeable(r.content[k], r.content[k + 1]);
  }

  // ---- every call, and every fragment --------------------------------------

  /** The calls so far, the pending one included. */
  function AllCalls(st: State): seq<StoredCall> {
    if st.pending.Some? && st.pending.value.Call? then st.toolCalls + [Stored(st.pending.value)] else st.toolCalls
  }

  ghost predicate MapInside(st: State) {
    forall x :: x in st.indexMap ==> st.indexMap[x] < |st.toolCalls|
  }

  /** Which call a fragment goes to: the pending call if it has the fragment's index, else the
      stored call registered under it, else the pending call, else none. */
  function Target(st: State, p: Part): Option<nat>
    requires p.CallPart?
  {
    if p.index.Some? && !IsPendingAt(st.pending, p.index.value) && p.index.value in st.indexMap
    then Some(st.indexMap[p.index.value])
    else if st.pending.Some? && st.pending.value.Call? then Some(|st.toolCalls|)
    else None
  }

  lemma StepCalls(st: State, p: Part)
    requires MapInside(st)
    ensures MapInside(Step(st, p))
    ensures p.Call? ==> AllCalls(Step(st, p)) == AllCalls(st) + [Stored(p)]
    ensures IsContent(p) ==> AllCalls(Step(st, p)) == AllCalls(st)
    ensures p.CallPart? ==>
              match Target(st, p)
              case None => AllCalls(Step(st, p)) == AllCalls(st)
              case Some(k) =>
                && k < |AllCalls(st)|
                && AllCalls(Step(st, p)) == AllCalls(st)[k := AllCalls(st)[k].(
                     arguments := AddArgs(AllCalls(st)[k].arguments, p.argumentsPart))]
  {
  }

  function Headers(stream: seq<Part>): seq<Part>
    ensures forall h :: h in Headers(stream) ==> h.Call?
    decreases |stream|
  {
    if stream == [] then []
    else Headers(stream[..|stream| - 1]) + if stream[|stream| - 1].Call? then [stream[|stream| - 1]] else []
  }

  /** The fragments of the stream routed to call k, in arrival order. */
  function Fragments(stream: seq<Part>, k: nat): seq<Option<string>>
    decreases |stream|
  {
    if stream == [] then []
    else
      var before, p := stream[..|stream| - 1], stream[|stream| - 1];
      Fragments(before, k)
      + if p.CallPart? && Target(Run(before), p) == Some(k) then [p.argumentsPart] else []
  }

  function AddAll(args: Option<string>, fragments: seq<Option<string>>): Option<string>
    decreases |fragments|
  {
    if fragments == [] then args
    else AddArgs(AddAll(args, fragments[..|fragments| - 1]), fragments[|fragments| - 1])
  }

  lemma AddAllSnoc(args: Option<string>, fs: seq<Option<string>>, f: Option<string>)
    ensures AddAll(args, fs + [f]) == AddArgs(AddAll(args, fs), f)
  {
    assert (fs + [f])[..|fs + [f]| - 1] == fs;
  }

  /** The text of a fragment; a null one has none. */
  function TextOf(fragment: Option<string>): string {
    if fragment.Some? then fragment.value else ""
  }

  /** The texts of all the fragments, in order. */
  function Concatenated(fragments: seq<Option<string>>): string {
    if fragments == [] then "" else TextOf(fragments[0]) + Concatenated(fragments[1..])
  }

  /** Arguments with fragments added: null exactly if they and all the fragments are, and else their
      text followed by the texts of the fragments, in order. */
  ghost predicate Gathers(result: Option<string>, args: Option<string>, fragments: seq<Option<string>>) {
    && (result.None? <==> args.None? && forall f :: f in fragments ==> f.None?)
    && TextOf(result) == TextOf(args) + Concatenated(fragments)
  }

  lemma {:induction false} ConcatenatedSnoc(fs: seq<Option<string>>, f: Option<string>)
    ensures Concatenated(fs + [f]) == Concatenated(fs) + TextOf(f)
  {
    if fs == [] {
      assert [f][1..] == [] && fs + [f] == [f];
    } else {
      assert (fs + [f])[1..] == fs[1..] + [f];
      ConcatenatedSnoc(fs[1..], f);
      assert TextOf(fs[0]) + (Concatenated(fs[1..]) + TextOf(f)) == TextOf(fs[0]) + Concatenated(fs[1..]) + TextOf(f);
    }
  }

  lemma AddArgsText(args: Option<string>, f: Option<string>)
    ensures TextOf(AddArgs(args, f)) == TextOf(args) + TextOf(f)
    ensures AddArgs(args, f).None? <==> args.None? && f.None?
  {
    assert TextOf(args) + "" == TextOf(args) && "" + TextOf(f) == TextOf(f);
  }

  lemma {:induction false} AddAllGathers(args: Option<string>, fragments: seq<Option<string>>)
    ensures Gathers(AddAll(args, fragments), args, fragments)
    decreases |fragments|
  {
    hide AddArgs, TextOf;
    if fragments == [] {
      assert TextOf(args) + "" == TextOf(args);
    } else {
      var n := |fragments| - 1;
      var before, f := fragments[..n], fragments[n];
      AddAllGathers(args, before);
      assert fragments == before + [f];
      ConcatenatedSnoc(before, f);
      AddArgsText(AddAll(args, before), f);
      assert TextOf(args) + (Concatenated(before) + TextOf(f)) == TextOf(args) + Concatenated(before) + TextOf(f);
    }
  }

  function Assembled(stream: seq<Part>, k: nat): StoredCall
    requires k < |Headers(stream)|
  {
    var h := Headers(stream)[k];
    assert h in Headers(stream);
    Stored(h).(arguments := AddAll(h.arguments, Fragments(stream, k)))
  }

  ghost predicate CallsMatch(stream: seq<Part>) {
    && MapInside(Run(stream))
    && |AllCalls(Run(stream))| == |Headers(stream)|
    && (forall k: nat :: k >= |Headers(stream)| ==> Fragments(stream, k) == [])
    && forall k :: 0 <= k < |Headers(stream)| ==> AllCalls(Run(stream))[k] == Assembled(stream, k)
  }

  lemma CallsMatchStep(before: seq<Part>, p: Part)
    requires CallsMatch(before)
    ensures CallsMatch(before + [p])
  {
    hide Step, AllCalls, Target, AddAll;
    var stream := before + [p];
    assert stream[..|stream| - 1] == before && stream[|stream| - 1] == p;
    StepCalls(Run(before), p);
    assert Run(stream) == Step(Run(before), p);
    var hs := Headers(stream);
    forall k: nat | k >= |hs|
      ensures Fragments(stream, k) == []
    {
      assert Fragments(before, k) == [];
    }
    forall k | 0 <= k < |hs|
      ensures AllCalls(Run(stream))[k] == Assembled(stream, k)
    {
      if p.CallPart? && Target(Run(before), p) == Some(k) {
        AddAllSnoc(hs[k].arguments, Fragments(before, k), p.argumentsPart);
      } else {
        assert Fragments(stream, k) == Fragments(before, k);
        if k == |Headers(before)| {
          NoFragments(hs[k].arguments);
        }
      }
    }
  }

  lemma NoFragments(args: Option<string>)
    ensures AddAll(args, []) == args
  {
  }

  lemma {:induction false} CallsMatchAlways(stream: seq<Part>)
    ensures CallsMatch(stream)
    decreases |stream|
  {
    if stream != [] {
      var n := |stream| - 1;
      CallsMatchAlways(stream[..n]);
      CallsMatchStep(stream[..n], stream[n]);
      assert stream[..n] + [stream[n]] == stream;
    }
  }

  /** The calls of the finished message: one per header, in header order, with the header's id,
      name and extras, and with the header's arguments followed by exactly the fragments routed
      to it. A fragment is routed to at most one call, which is one already announced. */
  lemma EveryFragmentIsAddedOnce(stream: seq<Part>, r: Message)
    requires Final(Run(stream)) == Ok(r)
    ensures |r.toolCalls| == |Headers(stream)|
    ensures forall k :: 0 <= k < |Headers(stream)| ==> r.toolCalls[k] == Assembled(stream, k)
    ensures forall n, k: nat |
              0 <= n < |stream| && stream[n].CallPart? && Target(Run(stream[..n]), stream[n]) == Some(k)
              :: k < |Headers(stream[..n])|
  {
    CallsMatchAlways(stream);
    assert r.toolCalls == AllCalls(Run(stream));
    forall n, k: nat | 0 <= n < |stream| && stream[n].CallPart? && Target(Run(stream[..n]), stream[n]) == Some(k)
      ensures k < |Headers(stream[..n])|
    {
      CallsMatchAlways(stream[..n]);
      StepCalls(Run(stream[..n]), stream[n]);
    }
  }

  // ---- interleaved calls ---------------------------------------------------

  ghost predicate Announced(stream: seq<Part>, x: Index) {
    exists h :: h in Headers(stream) && h.streamIndex == Some(x)
  }

  /** Indexed headers have distinct indexes; every fragment has an index, announced before it. */
  ghost predicate WellFormed(stream: seq<Part>)
    decreases |stream|
  {
    stream == []
    || (var before, p := stream[..|stream| - 1], stream[|stream| - 1];
        && WellFormed(before)
        && (p.Call? && p.streamIndex.Some? ==> !Announced(before, p.streamIndex.value))
        && (p.CallPart? ==> p.index.Some? && Announced(before, p.index.value)))
  }

  /** The fragments carrying index x, in arrival order. */
  function FragmentsFor(stream: seq<Part>, x: Index): seq<Option<string>>
    decreases |stream|
  {
    if stream == [] then []
    else
      var p := stream[|stream| - 1];
      FragmentsFor(stream[..|stream| - 1], x)
      + if p.CallPart? && p.index == Some(x) then [p.argumentsPart] else []
  }

  /** The routing state knows where every announced index lives. */
  ghost predicate KnowsAll(st: State, hs: seq<Part>) {
    && (forall h :: h in hs ==> h.Call?)
    && |st.toolCalls| + (if CallPending(st) then 1 else 0) == |hs|
    && (forall x :: x in st.indexMap ==> st.indexMap[x] < |st.toolCalls| && hs[st.indexMap[x]].streamIndex == Some(x))
    && (forall k :: 0 <= k < |st.toolCalls| && hs[k].streamIndex.Some? ==>
          hs[k].streamIndex.value in st.indexMap && st.indexMap[hs[k].streamIndex.value] == k)
    && (CallPending(st) ==> hs[|st.toolCalls|].streamIndex == st.pending.value.streamIndex)
    && (forall i, j :: 0 <= i < j < |hs| && hs[i].streamIndex.Some? ==> hs[i].streamIndex != hs[j].streamIndex)
  }

  ghost predicate Knows(stream: seq<Part>) {
    KnowsAll(Run(stream), Headers(stream))
  }

  predicate CallPending(st: State) {
    st.pending.Some? && st.pending.value.Call?
  }

  /** What a step does to the routing state: nothing; a call becomes pending; or the pending call
      is stored and registered under its index. */
  lemma StepShape(st: State, p: Part)
    ensures var t := Step(st, p);
            || (!p.Call? && (p.CallPart? || !CallPending(st))
                && |t.toolCalls| == |st.toolCalls| && t.indexMap == st.indexMap
                && (CallPending(t) <==> CallPending(st))
                && (CallPending(t) ==> t.pending.value.streamIndex == st.pending.value.streamIndex))
            || (p.Call? && !CallPending(st) && t.pending == Some(p)
                && |t.toolCalls| == |st.toolCalls| && t.indexMap == st.indexMap)
            || (CallPending(st) && t.pending == Some(p) && !p.CallPart?
                && |t.toolCalls| == |st.toolCalls| + 1
                && t.indexMap == var x := st.pending.value.streamIndex;
                                 if x.Some? then st.indexMap[x.value := |st.toolCalls|] else st.indexMap)
  {
  }

  /** The pending call stored and registered. */
  lemma KnowsStored(st: State, hs: seq<Part>)
    requires KnowsAll(st, hs) && CallPending(st)
    ensures KnowsAll(Flush(st, st.pending.value).(pending := None), hs)
  {
  }

  /** A call newly announced, nothing being pending. */
  lemma KnowsAnnounced(st: State, hs: seq<Part>, p: Part)
    requires KnowsAll(st, hs) && !CallPending(st) && p.Call?
    requires p.streamIndex.Some? ==> forall h :: h in hs ==> h.streamIndex != p.streamIndex
    ensures KnowsAll(st.(pending := Some(p)), hs + [p])
  {
  }

  /** Only the routing state matters. */
  lemma KnowsSameRouting(st: State, t: State, hs: seq<Part>)
    requires KnowsAll(st, hs)
    requires |t.toolCalls| == |st.toolCalls| && t.indexMap == st.indexMap && (CallPending(t) <==> CallPending(st))
    requires CallPending(t) ==> t.pending.value.streamIndex == st.pending.value.streamIndex
    ensures KnowsAll(t, hs)
  {
  }

  lemma KnowsStep(before: seq<Part>, p: Part)
    requires Knows(before) && WellFormed(before + [p])
    ensures Knows(before + [p])
  {
    hide Step, KnowsAll;
    var stream := before + [p];
    assert stream[..|stream| - 1] == before && stream[|stream| - 1] == p;
    var st, t, hs := Run(before), Run(stream), Headers(before);
    assert t == Step(st, p);
    assert Headers(stream) == if p.Call? then hs + [p] else hs;
    StepShape(st, p);
    var idle := if CallPending(st) then Flush(st, st.pending.value).(pending := None) else st;
    if CallPending(st) {
      KnowsStored(st, hs);
    }
    if p.Call? {
      KnowsAnnounced(idle, hs, p);
      KnowsSameRouting(idle.(pending := Some(p)), t, hs + [p]);
    } else if CallPending(t) || !CallPending(st) {
      KnowsSameRouting(st, t, hs);
    } else {
      KnowsSameRouting(idle, t, hs);
    }
  }

  lemma {:induction false} WellFormedKnows(stream: seq<Part>)
    requires WellFormed(stream)
    ensures Knows(stream)
    decreases |stream|
  {
    if stream != [] {
      var n := |stream| - 1;
      WellFormedKnows(stream[..n]);
      assert stream[..n] + [stream[n]] == stream;
      KnowsStep(stream[..n], stream[n]);
    }
  }

  /** The call an indexed fragment goes to is the one announced under its index. */
  lemma RoutedByIndex(before: seq<Part>, p: Part, k: nat)
    requires Knows(before) && p.CallPart? && p.index.Some? && Announced(before, p.index.value)
    requires k < |Headers(before)|
    ensures Target(Run(before), p) == Some(k) <==> Headers(before)[k].streamIndex == p.index
  {
    var h :| h in Headers(before) && h.streamIndex == p.index;
    var j :| 0 <= j < |Headers(before)| && Headers(before)[j] == h;
  }

  /** In a well-formed stream the fragments routed to a call are exactly those with its index,
      in arrival order, whatever they are interleaved with. */
  lemma {:induction false} FragmentsFollowTheirIndex(stream: seq<Part>, k: nat)
    requires WellFormed(stream) && k < |Headers(stream)|
    ensures Fragments(stream, k)
            == match Headers(stream)[k].streamIndex
               case None => []
               case Some(x) => FragmentsFor(stream, x)
    decreases |stream|
  {
    hide Target, Step, AllCalls;
    var n := |stream| - 1;
    var before, p := stream[..n], stream[n];
    WellFormedKnows(before);
    if k < |Headers(before)| {
      FragmentsFollowTheirIndex(before, k);
      if p.CallPart? {
        RoutedByIndex(before, p, k);
      }
    } else {
      CallsMatchAlways(before);
      if p.streamIndex.Some? {
        NoneBeforeAnnounced(before, p.streamIndex.value);
      }
    }
  }

  lemma {:induction false} NoneBeforeAnnounced(stream: seq<Part>, x: Index)
    requires WellFormed(stream) && !Announced(stream, x)
    ensures FragmentsFor(stream, x) == []
    decreases |stream|
  {
    if stream != [] {
      var before, p := stream[..|stream| - 1], stream[|stream| - 1];
      assert forall h :: h in Headers(before) ==> h in Headers(stream);
      NoneBeforeAnnounced(before, x);
    }
  }

  /** So parallel calls never contaminate each other: each finished call has its header's
      arguments followed by exactly the fragments with its index. */
  lemma ArgumentsReachTheirCall(stream: seq<Part>, r: Message, k: nat)
    requires WellFormed(stream) && Final(Run(stream)) == Ok(r) && k < |Headers(stream)|
    ensures |r.toolCalls| == |Headers(stream)|
    ensures var h := Headers(stream)[k];
            r.toolCalls[k] == StoredCall(h.id, h.name,
              match h.streamIndex
              case None => h.arguments
              case Some(x) => AddAll(h.arguments, FragmentsFor(stream, x)),
              h.extras)
    ensures var h := Headers(stream)[k];
            Gathers(r.toolCalls[k].arguments, h.arguments,
                    if h.streamIndex.Some? then FragmentsFor(stream, h.streamIndex.value) else [])
  {
    hide Gathers;
    EveryFragmentIsAddedOnce(stream, r);
    FragmentsFollowTheirIndex(stream, k);
    var h := Headers(stream)[k];
    NoFragments(h.arguments);
    AddAllGathers(h.arguments, if h.streamIndex.Some? then FragmentsFor(stream, h.streamIndex.value) else []);
    assert h in Headers(stream);
  }

  /** And the interleaving does not matter: two well-formed streams with the same headers in the
      same order, and for each index the same fragments in the same order, give the same calls. */
  lemma InterleavingDoesNotMatter(a: seq<Part>, b: seq<Part>, ra: Message, rb: Message)
    requires WellFormed(a) && WellFormed(b) && Final(Run(a)) == Ok(ra) && Final(Run(b)) == Ok(rb)
    requires Headers(a) == Headers(b)
    requires forall x :: FragmentsFor(a, x) == FragmentsFor(b, x)
    ensures ra.toolCalls == rb.toolCalls
  {
    hide Final, Run, WellFormed, Headers, Target, AddAll, Assembled, Fragments, FragmentsFor;
    EveryFragmentIsAddedOnce(a, ra);
    EveryFragmentIsAddedOnce(b, rb);
    forall k | 0 <= k < |Headers(a)|
      ensures ra.toolCalls[k] == rb.toolCalls[k]
    {
      ArgumentsReachTheirCall(a, ra, k);
      ArgumentsReachTheirCall(b, rb, k);
      if Headers(a)[k].streamIndex.Some? {
        assert FragmentsFor(a, Headers(a)[k].streamIndex.value) == FragmentsFor(b, Headers(a)[k].streamIndex.value);
      }
    }
  }

  /** Why announcing comes first: a fragment whose index nobody announced is added to whatever
      call is pending. */
  lemma UnannouncedFragmentGoesToPendingCall(before: seq<Part>, p: Part)
    requires Knows(before) && CallPending(Run(before))
    requires p.CallPart? && p.index.Some? && !Announced(before, p.index.value)
    ensures Target(Run(before), p) == Some(|Headers(before)| - 1)
    ensures Headers(before)[|Headers(before)| - 1].streamIndex != p.index
  {
    var st, hs := Run(before), Headers(before);
    assert hs[|hs| - 1] in hs;
    assert forall x :: x in st.indexMap ==> hs[st.indexMap[x]] in hs;
  }

  // ---- what is rejected ----------------------------------------------------

  predicate HasContent(ps: seq<Part>) {
    exists p :: p in ps && IsContent(p)
  }

  predicate SaysText(ts: seq<Token>) {
    exists t :: t in ts && t.TextChar? && !Blank(t.c)
  }

  lemma TextTokens(p: Part)
    ensures p.Text? && NonBlank(p.text) <==> SaysText(TokensOf(p))
  {
    if p.Text? && NonBlank(p.text) {
      var i :| 0 <= i < |p.text| && !Blank(p.text[i]);
      assert TokensOf(p)[i] == TextChar(p.text[i]);
    }
    if SaysText(TokensOf(p)) {
      var t :| t in TokensOf(p) && t.TextChar? && !Blank(t.c);
      var i :| 0 <= i < |TokensOf(p)| && TokensOf(p)[i] == t;
      assert p.Text? && t.c == p.text[i];
    }
  }

  lemma {:induction false} TextIsSaid(ps: seq<Part>)
    ensures HasText(ps) <==> SaysText(Tokens(ps))
    decreases |ps|
  {
    hide TokensOf, NonBlank, Blank;
    if ps != [] {
      var n := |ps| - 1;
      TextIsSaid(ps[..n]);
      TextTokens(ps[n]);
      assert ps == ps[..n] + [ps[n]];
      assert forall t :: t in Tokens(ps) <==> t in Tokens(ps[..n]) || t in TokensOf(ps[n]);
      assert forall p :: p in ps <==> p in ps[..n] || p == ps[n];
    }
  }

  lemma StepKeepsKinds(st: State, p: Part)
    ensures HasThink(Held(Step(st, p))) <==> HasThink(Held(st)) || p.Think?
    ensures Held(Step(st, p)) != [] <==> Held(st) != [] || IsContent(p)
  {
    if st.pending.Some? {
      var q := st.pending.value;
      assert forall x :: x in st.content + [q] <==> x in st.content || x == q;
      if Merged(q, p).Some? {
        MergedTokens(q, p);
        var m := Merged(q, p).value;
        assert forall x :: x in st.content + [m] <==> x in st.content || x == m;
      } else {
        assert forall x :: x in st.content + [q] + [p] <==> x in st.content || x == q || x == p;
        assert forall x :: x in st.content + [p] <==> x in st.content || x == p;
      }
    } else {
      assert forall x :: x in st.content + [p] <==> x in st.content || x == p;
    }
  }

  lemma {:induction false} KindsAreKept(stream: seq<Part>)
    ensures HasThink(Held(Run(stream))) <==> HasThink(stream)
    ensures Held(Run(stream)) != [] <==> HasContent(stream)
    decreases |stream|
  {
    hide Step, Held;
    if stream == [] {
      NothingHeld();
    } else {
      var n := |stream| - 1;
      KindsAreKept(stream[..n]);
      StepKeepsKinds(Run(stream[..n]), stream[n]);
      assert forall p :: p in stream <==> p in stream[..n] || p == stream[n];
    }
  }

  /** A stream is rejected as empty exactly when it has no content part and no call, and as
      thinking only exactly when it thinks, says nothing but white space, and calls nothing;
      every other stream gives a message holding all it said and every call it made. */
  lemma RejectedExactlyWhen(stream: seq<Part>)
    ensures Final(Run(stream)) == Err(EmptyResponse) <==> !HasContent(stream) && Headers(stream) == []
    ensures Final(Run(stream)) == Err(ThinkOnly) <==>
              HasThink(stream) && !HasText(stream) && Headers(stream) == []
    ensures Final(Run(stream)).Ok? ==>
              && Tokens(Final(Run(stream)).value.content) == Tokens(stream)
              && |Final(Run(stream)).value.toolCalls| == |Headers(stream)|
  {
    hide Step, Run, Tokens, Headers, HasThink, HasText, HasContent, SaysText;
    ContentIsConserved(stream);
    CallsMatchAlways(stream);
    KindsAreKept(stream);
    TextIsSaid(stream);
    TextIsSaid(Held(Run(stream)));
    ThinkIsContent(stream);
  }

  lemma ThinkIsContent(ps: seq<Part>)
    ensures HasThink(ps) ==> HasContent(ps)
  {
  }
}
