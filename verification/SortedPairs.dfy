// What packages/minidb/src/skiplist.ts keeps in order and how it is scanned: pairs of a timestamp
// and a record key, without the towers that make it fast.
module SortedPairs {
  import opened Wrappers

  /** ms and record key. A character stands for a UTF-16 code unit. */
  type Pair = (real, string)

  predicate TextLess(a: string, b: string) {
    b != [] && (a == [] || a[0] < b[0] || (a[0] == b[0] && TextLess(a[1..], b[1..])))
  }

  /** By timestamp, then by key. */
  predicate Less(a: Pair, b: Pair) {
    a.0 < b.0 || (a.0 == b.0 && TextLess(a.1, b.1))
  }

  predicate Ordered(list: seq<Pair>) {
    forall i, j :: 0 <= i < j < |list| ==> Less(list[i], list[j])
  }

  lemma {:induction false} TextIsTotal(a: string, b: string)
    ensures TextLess(a, b) || TextLess(b, a) || a == b
    decreases |a|
  {
    if a != [] && b != [] && a[0] == b[0] {
      TextIsTotal(a[1..], b[1..]);
      assert a == [a[0]] + a[1..] && b == [b[0]] + b[1..];
    }
  }

  lemma {:induction false} TextIsOrder(a: string, b: string, c: string)
    ensures !TextLess(a, a)
    ensures TextLess(a, b) && TextLess(b, c) ==> TextLess(a, c)
    decreases |a| + |b| + |c|
  {
    if a != [] {
      TextIsOrder(a[1..], if b == [] then b else b[1..], if c == [] then c else c[1..]);
    }
  }

  /** The order of the dictionary: where they first differ, the one that has ended or has the lower
      code unit comes first. */
  lemma {:induction false} TextLessIff(a: string, b: string)
    ensures TextLess(a, b) <==>
              exists k: nat :: k <= |a| && k < |b| && a[..k] == b[..k] && (k == |a| || a[k] < b[k])
    decreases |a|
  {
    if TextLess(a, b) {
      if a == [] || a[0] < b[0] {
        assert a[..0] == b[..0];
      } else {
        TextLessIff(a[1..], b[1..]);
        var k: nat :| k <= |a[1..]| && k < |b[1..]| && a[1..][..k] == b[1..][..k]
                      && (k == |a[1..]| || a[1..][k] < b[1..][k]);
        assert a[..k + 1] == [a[0]] + a[1..][..k] && b[..k + 1] == [b[0]] + b[1..][..k];
      }
    }
    if exists k: nat :: k <= |a| && k < |b| && a[..k] == b[..k] && (k == |a| || a[k] < b[k]) {
      var k: nat :| k <= |a| && k < |b| && a[..k] == b[..k] && (k == |a| || a[k] < b[k]);
      if k > 0 {
        assert a[0] == a[..k][0] && b[0] == b[..k][0];
        assert a[1..][..k - 1] == a[..k][1..] && b[1..][..k - 1] == b[..k][1..];
        TextLessIff(a[1..], b[1..]);
      }
    }
  }

  lemma LessIsOrder(a: Pair, b: Pair, c: Pair)
    ensures !Less(a, a) && (Less(a, b) || Less(b, a) || a == b)
    ensures Less(a, b) && Less(b, c) ==> Less(a, c)
  {
    TextIsTotal(a.1, b.1);
    TextIsOrder(a.1, b.1, c.1);
  }

  // ---- insert and delete -----------------------------------------------------

  /** Before the first pair that is not less. */
  function Insert(list: seq<Pair>, p: Pair): seq<Pair> {
    if list == [] || !Less(list[0], p) then [p] + list else [list[0]] + Insert(list[1..], p)
  }

  /** The first pair that is not less, if it is the one. */
  function Delete(list: seq<Pair>, p: Pair): seq<Pair> {
    if list == [] then []
    else if Less(list[0], p) then [list[0]] + Delete(list[1..], p)
    else if list[0] == p then list[1..]
    else list
  }

  /** The list of a map from record keys to timestamps. */
  ghost predicate Lists(list: seq<Pair>, m: map<string, real>) {
    Ordered(list) && forall p: Pair :: p in list <==> p.1 in m && m[p.1] == p.0
  }

  lemma {:induction false} InsertKeepsOrder(list: seq<Pair>, p: Pair)
    requires Ordered(list) && p !in list
    ensures Ordered(Insert(list, p))
    ensures forall q :: q in Insert(list, p) <==> q in list || q == p
  {
    if list == [] {
    } else if !Less(list[0], p) {
      forall i | 0 <= i < |list|
        ensures Less(p, list[i])
      {
        LessIsOrder(list[0], p, p);
        LessIsOrder(p, list[0], list[i]);
      }
    } else {
      InsertKeepsOrder(list[1..], p);
      FirstIsLeast(list[0], Insert(list[1..], p));
    }
  }

  lemma FirstIsLeast(first: Pair, rest: seq<Pair>)
    requires Ordered(rest) && forall q :: q in rest ==> Less(first, q)
    ensures Ordered([first] + rest)
  {
  }

  lemma {:induction false} DeleteKeepsOrder(list: seq<Pair>, p: Pair)
    requires Ordered(list) && p in list
    ensures Ordered(Delete(list, p))
    ensures forall q :: q in Delete(list, p) <==> q in list && q != p
  {
    LessIsOrder(p, p, p);
    if list[0] != p {
      assert Less(list[0], p);
      DeleteKeepsOrder(list[1..], p);
      forall q | q in Delete(list[1..], p)
        ensures Less(list[0], q)
      {
        assert q in list[1..];
      }
      FirstIsLeast(list[0], Delete(list[1..], p));
      LessIsOrder(list[0], p, p);
    } else {
      assert list == [p] + list[1..];
      assert p !in list[1..];
    }
  }

  lemma InsertLists(list: seq<Pair>, m: map<string, real>, ms: real, key: string)
    requires Lists(list, m) && key !in m
    ensures Lists(Insert(list, (ms, key)), m[key := ms])
  {
    InsertKeepsOrder(list, (ms, key));
  }

  lemma DeleteLists(list: seq<Pair>, m: map<string, real>, key: string)
    requires Lists(list, m) && key in m
    ensures Lists(Delete(list, (m[key], key)), m - {key})
  {
    DeleteKeepsOrder(list, (m[key], key));
  }

  lemma SomeMember(list: seq<Pair>)
    ensures list == [] || exists p :: p in list
  {
    if list != [] {
      assert list[0] in list;
    }
  }

  /** A map has one list. */
  lemma {:induction false} OneList(a: seq<Pair>, b: seq<Pair>)
    requires Ordered(a) && Ordered(b) && forall p :: p in a <==> p in b
    ensures a == b
  {
    SomeMember(a);
    SomeMember(b);
    if a != [] && b != [] {
      assert a[0] in b && b[0] in a;
      LessIsOrder(a[0], b[0], a[0]);
      assert a[0] == b[0];
      assert a == [a[0]] + a[1..] && b == [b[0]] + b[1..];
      forall p
        ensures p in a[1..] <==> p in b[1..]
      {
        LessIsOrder(a[0], a[0], a[0]);
        assert a[0] !in a[1..] && b[0] !in b[1..];
        assert p in a[1..] ==> p in a;
        assert p in b[1..] ==> p in b;
      }
      OneList(a[1..], b[1..]);
    }
  }

  ghost function Listing(m: map<string, real>): (list: seq<Pair>)
    ensures Lists(list, m)
    decreases |m|
  {
    if m == map[] then []
    else
      var key :| key in m;
      var rest := m - {key};
      assert rest.Keys == m.Keys - {key};
      InsertLists(Listing(rest), rest, m[key], key);
      assert rest[key := m[key]] == m;
      Insert(Listing(rest), (m[key], key))
  }

  lemma ListIsListing(list: seq<Pair>, m: map<string, real>)
    requires Lists(list, m)
    ensures list == Listing(m)
  {
    OneList(list, Listing(m));
  }

  // ---- range scans -----------------------------------------------------------

  datatype Options = Options(gte: Option<real>, gt: Option<real>, lte: Option<real>, lt: Option<real>,
                             offset: int, count: Option<int>, reverse: bool)

  predicate OverLower(o: Options, ms: real) {
    (o.gte.Some? ==> ms >= o.gte.value) && (o.gt.Some? ==> ms > o.gt.value)
  }

  predicate UnderUpper(o: Options, ms: real) {
    (o.lte.Some? ==> ms <= o.lte.value) && (o.lt.Some? ==> ms < o.lt.value)
  }

  /** How many pairs come before the first at or, if strict, after the bound. */
  function LowerBound(list: seq<Pair>, bound: real, strict: bool): (k: nat)
    ensures k <= |list|
  {
    if list == [] || !(if strict then list[0].0 <= bound else list[0].0 < bound) then 0
    else 1 + LowerBound(list[1..], bound, strict)
  }

  /** Up to the first that fails the test. */
  function TakeWhile(list: seq<Pair>, keep: real -> bool): seq<Pair> {
    if list == [] || !keep(list[0].0) then [] else [list[0]] + TakeWhile(list[1..], keep)
  }

  function Window(list: seq<Pair>, o: Options): seq<Pair> {
    var from := if o.offset <= 0 then 0 else if o.offset < |list| then o.offset else |list|;
    var rest := list[from..];
    if o.count.None? || o.count.value >= |rest| then rest else if o.count.value <= 0 then [] else rest[..o.count.value]
  }

  lemma RestAt(list: seq<Pair>, from: nat, k: nat)
    requires from <= |list| && k <= |list| - from
    ensures |list[from..][..k]| == k && forall i :: 0 <= i < k ==> list[from..][..k][i] == list[from + i]
    ensures list[from..][..|list| - from] == list[from..]
  {
  }

  /** A number of pairs asked for, of those there are: none for a negative number. */
  function Clipped(n: int, most: nat): (k: nat)
    ensures k <= most
  {
    if n < 0 then 0 else if n < most then n else most
  }

  lemma WindowSlices(list: seq<Pair>, o: Options)
    ensures var from := Clipped(o.offset, |list|);
            var left := |list| - from;
            Window(list, o) == list[from..][..if o.count.None? then left else Clipped(o.count.value, left)]
  {
    RestAt(list, Clipped(o.offset, |list|), |list| - Clipped(o.offset, |list|));
  }

  /** A scan leaves out the pairs up to the offset, and takes as many of the rest as asked for. */
  lemma WindowTakes(list: seq<Pair>, o: Options)
    ensures var w, from := Window(list, o), Clipped(o.offset, |list|);
            && |w| == (if o.count.None? then |list| - from else Clipped(o.count.value, |list| - from))
            && forall i :: 0 <= i < |w| ==> w[i] == list[from + i]
  {
    hide Window, Clipped;
    WindowSlices(list, o);
    var from := Clipped(o.offset, |list|);
    RestAt(list, from, if o.count.None? then |list| - from else Clipped(o.count.value, |list| - from));
  }

  function Backwards(list: seq<Pair>): seq<Pair> {
    if list == [] then [] else Backwards(list[1..]) + [list[0]]
  }

  function Upto(list: seq<Pair>, o: Options): (k: nat)
    ensures k <= |list|
  {
    if o.lte.Some? then LowerBound(list, o.lte.value, true)
    else if o.lt.Some? then LowerBound(list, o.lt.value, false)
    else |list|
  }

  /** With both lower bounds given, the scan starts at gte but strictly; likewise at lte, ignoring
      lt, when it runs backwards. */
  function Range(list: seq<Pair>, o: Options): seq<Pair> {
    if o.reverse then
      Window(TakeWhile(Backwards(list[..Upto(list, o)]), ms => OverLower(o, ms)), o)
    else
      var from :=
        if o.gte.Some? then LowerBound(list, o.gte.value, o.gt.Some?)
        else if o.gt.Some? then LowerBound(list, o.gt.value, true)
        else 0;
      Window(TakeWhile(list[from..], ms => UnderUpper(o, ms)), o)
  }

  /** The bounds a scan honours. */
  predicate Honoured(o: Options, ms: real) {
    if o.reverse then OverLower(o, ms) && EntersBack(o, ms)
    else UnderUpper(o, ms) && EntersFront(o, ms)
  }

  predicate Asked(o: Options, ms: real) {
    OverLower(o, ms) && UnderUpper(o, ms)
  }

  function Filter(list: seq<Pair>, keep: real -> bool): seq<Pair> {
    if list == [] then [] else (if keep(list[0].0) then [list[0]] else []) + Filter(list[1..], keep)
  }

  lemma {:induction false} FilterHas(list: seq<Pair>, keep: real -> bool, p: Pair)
    ensures p in Filter(list, keep) <==> p in list && keep(p.0)
  {
    if list != [] {
      FilterHas(list[1..], keep, p);
    }
  }

  lemma {:induction false} FilterAgrees(list: seq<Pair>, p: real -> bool, q: real -> bool)
    requires forall e :: e in list ==> p(e.0) == q(e.0)
    ensures Filter(list, p) == Filter(list, q)
  {
    if list != [] {
      assert list[0] in list && forall e :: e in list[1..] ==> e in list;
      FilterAgrees(list[1..], p, q);
    }
  }

  lemma {:induction false} FilterNone(list: seq<Pair>, keep: real -> bool)
    requires forall i :: 0 <= i < |list| ==> !keep(list[i].0)
    ensures Filter(list, keep) == []
  {
    if list != [] {
      FilterNone(list[1..], keep);
    }
  }

  /** Entering at the first pair that passes one test and leaving at the first that fails the other
      is filtering, if the pairs passing the first are a tail, and of those the ones passing the
      second come first. */
  lemma {:induction false} ScanIsFilter(list: seq<Pair>, from: nat, enter: real -> bool, stay: real -> bool,
                                        keep: real -> bool)
    requires from <= |list|
    requires forall i :: 0 <= i < |list| ==> (keep(list[i].0) <==> enter(list[i].0) && stay(list[i].0))
    requires forall i :: 0 <= i < |list| ==> (enter(list[i].0) <==> from <= i)
    requires forall i, j :: from <= i <= j < |list| && stay(list[j].0) ==> stay(list[i].0)
    ensures TakeWhile(list[from..], stay) == Filter(list, keep)
  {
    if list == [] {
    } else if from > 0 {
      assert list[1..][from - 1..] == list[from..];
      ScanIsFilter(list[1..], from - 1, enter, stay, keep);
    } else {
      assert list[0..] == list && list[1..][0..] == list[1..];
      if stay(list[0].0) {
        ScanIsFilter(list[1..], 0, enter, stay, keep);
      } else {
        forall i | 0 <= i < |list|
          ensures !keep(list[i].0)
        {
        }
        FilterNone(list, keep);
      }
    }
  }

  lemma {:induction false} BackwardsConcat(a: seq<Pair>, b: seq<Pair>)
    ensures Backwards(a + b) == Backwards(b) + Backwards(a)
  {
    if a == [] {
      assert a + b == b;
    } else {
      assert (a + b)[1..] == a[1..] + b;
      BackwardsConcat(a[1..], b);
    }
  }

  lemma {:induction false} BackwardsAt(list: seq<Pair>)
    ensures |Backwards(list)| == |list|
    ensures forall i :: 0 <= i < |list| ==> Backwards(list)[i] == list[|list| - 1 - i]
  {
    if list != [] {
      BackwardsAt(list[1..]);
    }
  }

  lemma {:induction false} FilterConcat(a: seq<Pair>, b: seq<Pair>, keep: real -> bool)
    ensures Filter(a + b, keep) == Filter(a, keep) + Filter(b, keep)
  {
    if a == [] {
      assert a + b == b;
    } else {
      assert (a + b)[0] == a[0] && (a + b)[1..] == a[1..] + b;
      FilterConcat(a[1..], b, keep);
      var front := if keep(a[0].0) then [a[0]] else [];
      assert front + (Filter(a[1..], keep) + Filter(b, keep)) == (front + Filter(a[1..], keep)) + Filter(b, keep);
    }
  }

  lemma {:induction false} FilterBackwards(list: seq<Pair>, keep: real -> bool)
    ensures Filter(Backwards(list), keep) == Backwards(Filter(list, keep))
  {
    if list != [] {
      FilterBackwards(list[1..], keep);
      FilterConcat(Backwards(list[1..]), [list[0]], keep);
      assert Filter([list[0]], keep) == if keep(list[0].0) then [list[0]] else [];
      BackwardsConcat(Filter([list[0]], keep), Filter(list[1..], keep));
      assert Backwards([list[0]]) == [list[0]];
    }
  }

  lemma {:induction false} LowerBoundSplits(list: seq<Pair>, bound: real, strict: bool)
    requires Ordered(list)
    ensures var k := LowerBound(list, bound, strict);
            forall i :: 0 <= i < |list| ==> (k <= i <==> if strict then list[i].0 > bound else list[i].0 >= bound)
  {
    if list != [] {
      LowerBoundSplits(list[1..], bound, strict);
      assert forall i :: 1 <= i < |list| ==> Less(list[0], list[i]) && list[i] == list[1..][i - 1];
    }
  }

  function Promised(list: seq<Pair>, o: Options, keep: real -> bool): seq<Pair> {
    Window(if o.reverse then Backwards(Filter(list, keep)) else Filter(list, keep), o)
  }

  lemma BackwardsTail(list: seq<Pair>, upto: nat)
    requires upto <= |list|
    ensures |Backwards(list)| == |list|
    ensures Backwards(list[..upto]) == Backwards(list)[|list| - upto..]
  {
    hide Backwards;
    BackwardsAt(list);
    BackwardsAt(list[..upto]);
    BackwardsAt(list[upto..]);
    BackwardsConcat(list[..upto], list[upto..]);
    assert list[..upto] + list[upto..] == list;
    SuffixOf(Backwards(list[upto..]), Backwards(list[..upto]));
  }

  lemma SuffixOf(a: seq<Pair>, b: seq<Pair>)
    ensures (a + b)[|a|..] == b
  {
  }

  lemma BackwardsDescends(list: seq<Pair>)
    requires Ordered(list)
    ensures |Backwards(list)| == |list|
    ensures forall i, j :: 0 <= i <= j < |list| ==> Backwards(list)[j].0 <= Backwards(list)[i].0
  {
    BackwardsAt(list);
    forall i, j | 0 <= i <= j < |list|
      ensures Backwards(list)[j].0 <= Backwards(list)[i].0
    {
      assert i < j ==> Less(list[|list| - 1 - j], list[|list| - 1 - i]);
    }
  }

  predicate EntersBack(o: Options, ms: real) {
    if o.lte.Some? then ms <= o.lte.value else UnderUpper(o, ms)
  }

  predicate EntersFront(o: Options, ms: real) {
    if o.gte.Some? && o.gt.Some? then ms > o.gte.value else OverLower(o, ms)
  }

  lemma UptoSplits(list: seq<Pair>, o: Options)
    requires Ordered(list)
    ensures forall i :: 0 <= i < |list| ==> (EntersBack(o, list[i].0) <==> i < Upto(list, o))
  {
    if o.lte.Some? {
      LowerBoundSplits(list, o.lte.value, true);
    } else if o.lt.Some? {
      LowerBoundSplits(list, o.lt.value, false);
    }
  }

  lemma RangeBackwards(list: seq<Pair>, o: Options)
    requires Ordered(list) && o.reverse
    ensures Range(list, o) == Promised(list, o, ms => Honoured(o, ms))
  {
    hide Upto, EntersBack, Ordered, LowerBound, Backwards;
    var keep: real -> bool := ms => Honoured(o, ms);
    var stay: real -> bool := ms => OverLower(o, ms);
    var enter: real -> bool := ms => EntersBack(o, ms);
    var back := Backwards(list);
    UptoSplits(list, o);
    BackwardsTail(list, Upto(list, o));
    BackwardsDescends(list);
    BackwardsAt(list);
    forall i | 0 <= i < |back|
      ensures enter(back[i].0) <==> |list| - Upto(list, o) <= i
    {
      assert back[i] == list[|list| - 1 - i];
    }
    ScanIsFilter(back, |list| - Upto(list, o), enter, stay, keep);
    FilterBackwards(list, keep);
  }

  lemma RangeForwards(list: seq<Pair>, o: Options)
    requires Ordered(list) && !o.reverse
    ensures Range(list, o) == Promised(list, o, ms => Honoured(o, ms))
  {
    var keep: real -> bool := ms => Honoured(o, ms);
    var stay: real -> bool := ms => UnderUpper(o, ms);
    var from :=
      if o.gte.Some? then LowerBound(list, o.gte.value, o.gt.Some?)
      else if o.gt.Some? then LowerBound(list, o.gt.value, true)
      else 0;
    if o.gte.Some? {
      LowerBoundSplits(list, o.gte.value, o.gt.Some?);
    } else if o.gt.Some? {
      LowerBoundSplits(list, o.gt.value, true);
    }
    forall i, j | from <= i <= j < |list| && stay(list[j].0)
      ensures stay(list[i].0)
    {
      assert i < j ==> Less(list[i], list[j]);
    }
    ScanIsFilter(list, from, ms => EntersFront(o, ms), stay, keep);
  }

  /** A scan yields the pairs within the bounds it honours, in the order asked, windowed. */
  lemma RangeIsFilter(list: seq<Pair>, o: Options)
    requires Ordered(list)
    ensures Range(list, o) == Promised(list, o, ms => Honoured(o, ms))
  {
    if o.reverse {
      RangeBackwards(list, o);
    } else {
      RangeForwards(list, o);
    }
  }

  /** Where the bounds a scan honours are not the bounds asked for: both bounds on the side it
      enters from, and a pair between them. */
  predicate Overlooked(o: Options, ms: real) {
    if o.reverse then
      o.lte.Some? && o.lt.Some? && OverLower(o, ms) && o.lt.value <= ms <= o.lte.value
    else
      o.gte.Some? && o.gt.Some? && UnderUpper(o, ms)
      && (o.gte.value < ms <= o.gt.value || ms == o.gte.value > o.gt.value)
  }

  lemma OverlookedIsDisagreement(o: Options, ms: real)
    ensures Overlooked(o, ms) <==> Honoured(o, ms) != Asked(o, ms)
  {
  }

  /** The pairs asked for are what a scan without offset or count yields exactly if no pair is
      overlooked; then they are with any offset and count. */
  lemma RangeIsAsked(list: seq<Pair>, o: Options)
    requires Ordered(list)
    ensures (forall e :: e in list ==> !Overlooked(o, e.0)) ==> Range(list, o) == Promised(list, o, ms => Asked(o, ms))
    ensures o.offset <= 0 && o.count.None? && Range(list, o) == Promised(list, o, ms => Asked(o, ms))
            ==> forall e :: e in list ==> !Overlooked(o, e.0)
  {
    var honoured: real -> bool, asked: real -> bool := ms => Honoured(o, ms), ms => Asked(o, ms);
    RangeIsFilter(list, o);
    if forall e :: e in list ==> !Overlooked(o, e.0) {
      forall e | e in list
        ensures honoured(e.0) == asked(e.0)
      {
        OverlookedIsDisagreement(o, e.0);
      }
      FilterAgrees(list, honoured, asked);
    } else if o.offset <= 0 && o.count.None? && Range(list, o) == Promised(list, o, asked) {
      var e :| e in list && Overlooked(o, e.0);
      OverlookedIsDisagreement(o, e.0);
      FilterHas(list, honoured, e);
      FilterHas(list, asked, e);
      if o.reverse {
        BackwardsHas(Filter(list, honoured), e);
        BackwardsHas(Filter(list, asked), e);
      }
      WholeWindow(list, o, honoured);
      WholeWindow(list, o, asked);
      assert false;
    }
  }

  lemma BackwardsHas(list: seq<Pair>, p: Pair)
    ensures p in Backwards(list) <==> p in list
  {
    BackwardsAt(list);
    if p in list {
      var i :| 0 <= i < |list| && list[i] == p;
      assert Backwards(list)[|list| - 1 - i] == p;
    }
  }

  lemma WholeWindow(list: seq<Pair>, o: Options, keep: real -> bool)
    requires o.offset <= 0 && o.count.None?
    ensures Promised(list, o, keep) == if o.reverse then Backwards(Filter(list, keep)) else Filter(list, keep)
  {
  }

  /** A pair asked for and left out, and a pair not asked for and yielded, each way. */
  lemma BothBoundsOverlook()
    ensures var o := Options(Some(5.0), Some(3.0), None, None, 0, None, false);
            Range([(5.0, "a")], o) == [] && Promised([(5.0, "a")], o, ms => Asked(o, ms)) == [(5.0, "a")]
    ensures var o := Options(Some(1.0), Some(5.0), None, None, 0, None, false);
            Range([(3.0, "a")], o) == [(3.0, "a")] && Promised([(3.0, "a")], o, ms => Asked(o, ms)) == []
    ensures var o := Options(None, None, Some(5.0), Some(3.0), 0, None, true);
            Range([(4.0, "a")], o) == [(4.0, "a")] && Promised([(4.0, "a")], o, ms => Asked(o, ms)) == []
  {
    OneScanned(Options(Some(5.0), Some(3.0), None, None, 0, None, false), 5.0);
    OneScanned(Options(Some(1.0), Some(5.0), None, None, 0, None, false), 3.0);
    OneScanned(Options(None, None, Some(5.0), Some(3.0), 0, None, true), 4.0);
  }

  /** A list of one pair, scanned and asked for without a window. */
  lemma OneScanned(o: Options, ms: real)
    requires o.offset == 0 && o.count.None?
    ensures var list := [(ms, "a")];
            && Range(list, o) == (if Honoured(o, ms) then list else [])
            && Promised(list, o, v => Asked(o, v)) == (if Asked(o, ms) then list else [])
  {
    var list: seq<Pair> := [(ms, "a")];
    var honoured: real -> bool, asked: real -> bool := v => Honoured(o, v), v => Asked(o, v);
    RangeIsFilter(list, o);
    assert list[1..] == [];
    assert Filter(list, honoured) == if Honoured(o, ms) then list else [];
    assert Filter(list, asked) == if Asked(o, ms) then list else [];
    assert Backwards(list) == list;
  }
}
