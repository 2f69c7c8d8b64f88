// Cutting a sequence into lines, each with its terminator.
module Lines {

  /** The terminated lines so far, and what follows the last terminator. */
  datatype Cut<T> = Cut(lines: seq<seq<T>>, rest: seq<T>)

  function Split<T(==)>(s: seq<T>, nl: T): Cut<T>
    decreases |s|
  {
    if s == [] then Cut([], [])
    else
      var c, x := Split(s[..|s| - 1], nl), s[|s| - 1];
      if x == nl then Cut(c.lines + [c.rest + [x]], []) else Cut(c.lines, c.rest + [x])
  }

  /** The lines of s: the last one may lack its terminator, and is never empty. */
  function LinesOf<T(==)>(s: seq<T>, nl: T): seq<seq<T>> {
    var c := Split(s, nl);
    if c.rest == [] then c.lines else c.lines + [c.rest]
  }

  function Flatten<T>(ls: seq<seq<T>>): seq<T>
    decreases |ls|
  {
    if ls == [] then [] else Flatten(ls[..|ls| - 1]) + ls[|ls| - 1]
  }

  lemma FlattenSnoc<T>(ls: seq<seq<T>>, l: seq<T>)
    ensures Flatten(ls + [l]) == Flatten(ls) + l
  {
    assert (ls + [l])[..|ls + [l]| - 1] == ls;
  }

  lemma {:induction false} FlattenConcat<T>(a: seq<seq<T>>, b: seq<seq<T>>)
    ensures Flatten(a + b) == Flatten(a) + Flatten(b)
    decreases |b|
  {
    if b == [] {
      assert a + b == a;
    } else {
      var n := |b| - 1;
      FlattenConcat(a, b[..n]);
      assert a + b == (a + b[..n]) + [b[n]] && b == b[..n] + [b[n]];
      FlattenSnoc(a + b[..n], b[n]);
    }
  }

  lemma SplitSnoc<T>(s: seq<T>, x: T, nl: T)
    ensures Split(s + [x], nl) == var c := Split(s, nl);
                                  if x == nl then Cut(c.lines + [c.rest + [x]], []) else Cut(c.lines, c.rest + [x])
  {
    assert (s + [x])[..|s + [x]| - 1] == s;
  }

  /** Cutting loses nothing, and cuts exactly behind each terminator. */
  ghost predicate IsCut<T>(c: Cut<T>, s: seq<T>, nl: T) {
    && Flatten(c.lines) + c.rest == s
    && nl !in c.rest
    && forall l :: l in c.lines ==> l != [] && l[|l| - 1] == nl && nl !in l[..|l| - 1]
  }

  lemma {:induction false} SplitIsCut<T>(s: seq<T>, nl: T)
    ensures IsCut(Split(s, nl), s, nl)
    decreases |s|
  {
    if s != [] {
      var n := |s| - 1;
      SplitIsCut(s[..n], nl);
      var c := Split(s[..n], nl);
      assert s == s[..n] + [s[n]];
      FlattenSnoc(c.lines, c.rest + [s[n]]);
      assert (c.rest + [s[n]])[..|c.rest|] == c.rest;
    }
  }

  /** And there is only one way to do so. */
  lemma {:induction false} CutIsUnique<T>(c: Cut<T>, s: seq<T>, nl: T)
    requires IsCut(c, s, nl)
    ensures c == Split(s, nl)
    decreases |s|
  {
    hide Split;
    assert c.lines != [] ==> c.lines[|c.lines| - 1] in c.lines;
    if s == [] {
      SplitNothing<T>(nl);
    } else {
      var n := |s| - 1;
      var shorter := ShorterCut(c, s, nl);
      CutIsUnique(shorter, s[..n], nl);
      assert s[..n] + [s[n]] == s;
      SplitSnoc(s[..n], s[n], nl);
    }
  }

  lemma SplitNothing<T>(nl: T)
    ensures Split<T>([], nl) == Cut([], [])
  {
  }

  /** The cut of all but the last element. */
  lemma ShorterCut<T>(c: Cut<T>, s: seq<T>, nl: T) returns (d: Cut<T>)
    requires IsCut(c, s, nl) && s != []
    ensures IsCut(d, s[..|s| - 1], nl)
    ensures c == if s[|s| - 1] == nl then Cut(d.lines + [d.rest + [nl]], []) else Cut(d.lines, d.rest + [s[|s| - 1]])
  {
    var n := |s| - 1;
    if c.rest != [] {
      var m := |c.rest| - 1;
      assert c.rest == c.rest[..m] + [c.rest[m]];
      assert s[n] == c.rest[m] && s[..n] == Flatten(c.lines) + c.rest[..m];
      d := Cut(c.lines, c.rest[..m]);
    } else {
      var k := |c.lines| - 1;
      var last := c.lines[k];
      assert last in c.lines;
      var m := |last| - 1;
      assert last == last[..m] + [last[m]] && c.lines == c.lines[..k] + [last];
      assert s == Flatten(c.lines[..k]) + last;
      assert s[n] == last[m] && s[..n] == Flatten(c.lines[..k]) + last[..m];
      d := Cut(c.lines[..k], last[..m]);
    }
  }

  /** Terminated lines stay what they are whatever follows. */
  lemma {:induction false} SplitGrows<T>(a: seq<T>, b: seq<T>, nl: T)
    ensures Split(a, nl).lines <= Split(a + b, nl).lines
    decreases |b|
  {
    if b == [] {
      assert a + b == a;
    } else {
      var n := |b| - 1;
      SplitGrows(a, b[..n], nl);
      assert a + b == (a + b[..n]) + [b[n]];
      SplitSnoc(a + b[..n], b[n], nl);
    }
  }

  /** Behind a terminator cutting starts afresh. */
  lemma {:induction false} SplitBehindTerminator<T>(a: seq<T>, b: seq<T>, nl: T)
    requires Split(a, nl).rest == []
    ensures Split(a + b, nl) == Cut(Split(a, nl).lines + Split(b, nl).lines, Split(b, nl).rest)
    ensures LinesOf(a + b, nl) == LinesOf(a, nl) + LinesOf(b, nl)
    decreases |b|
  {
    hide Split;
    if b == [] {
      SplitNothing<T>(nl);
      assert a + b == a;
    } else {
      var n := |b| - 1;
      SplitBehindTerminator(a, b[..n], nl);
      assert a + b == (a + b[..n]) + [b[n]] && b == b[..n] + [b[n]];
      SplitSnoc(a + b[..n], b[n], nl);
      SplitSnoc(b[..n], b[n], nl);
      LinesBehindTerminator(a, b, nl);
    }
  }

  lemma LinesBehindTerminator<T>(a: seq<T>, b: seq<T>, nl: T)
    requires Split(a, nl).rest == []
    requires Split(a + b, nl) == Cut(Split(a, nl).lines + Split(b, nl).lines, Split(b, nl).rest)
    ensures LinesOf(a + b, nl) == LinesOf(a, nl) + LinesOf(b, nl)
  {
    hide Split;
  }

  lemma NoRestBehindTerminator<T>(a: seq<T>, nl: T)
    requires a == [] || a[|a| - 1] == nl
    ensures Split(a, nl).rest == []
  {
  }

  function Count<T(==)>(s: seq<T>, nl: T): nat
    decreases |s|
  {
    if s == [] then 0 else Count(s[..|s| - 1], nl) + if s[|s| - 1] == nl then 1 else 0
  }

  /** One line per terminator, and one more for what follows the last. */
  lemma {:induction false} LineCount<T>(s: seq<T>, nl: T)
    ensures |Split(s, nl).lines| == Count(s, nl)
    ensures |LinesOf(s, nl)| == Count(s, nl) + if s == [] || s[|s| - 1] == nl then 0 else 1
    decreases |s|
  {
    if s != [] {
      LineCount(s[..|s| - 1], nl);
    }
  }

  lemma {:induction false} CountConcat<T>(a: seq<T>, b: seq<T>, nl: T)
    ensures Count(a + b, nl) == Count(a, nl) + Count(b, nl)
    decreases |b|
  {
    if b == [] {
      assert a + b == a;
    } else {
      var n := |b| - 1;
      CountConcat(a, b[..n], nl);
      assert (a + b)[..|a + b| - 1] == a + b[..n];
    }
  }
}
