// packages/kaos/src/ssh.ts: the same walk over SFTP. It remembers no directories on the way, so
// it is a function only where there are no cycles; there it yields what the local walk yields.
module RemoteGlob {
  import opened Wrappers
  import opened Glob

  predicate Dots(name: string) {
    name == "." || name == ".."
  }

  /** Every directory lies lower than the one holding it, dot entries aside. */
  ghost predicate Descends(g: Graph, rank: Key -> nat) {
    Sound(g) && forall d :: d in g ==> AllLower(g, rank, EntriesOf(g, d), Height(g, rank, d))
  }

  ghost function Height(g: Graph, rank: Key -> nat, d: nat): nat
    requires Sound(g) && d in g
  {
    assert SoundDirectory(g, g[d]);
    rank(KeyOf(g, d))
  }

  ghost predicate AllLower(g: Graph, rank: Key -> nat, es: seq<Entry>, height: nat)
    requires Sound(g)
  {
    forall k :: 0 <= k < |es| && es[k].target.Dir? && !Dots(es[k].name)
                ==> es[k].target.id in g && Height(g, rank, es[k].target.id) < height
  }

  // ---- the remote walk -----------------------------------------------------

  function RemoteWalk(g: Graph, ghost rank: Key -> nat, m: Matcher, d: nat, path: seq<string>, parts: seq<string>)
    : seq<seq<string>>
    requires Descends(g, rank) && d in g
    decreases |parts|, Height(g, rank, d), 1, 0
  {
    if parts == [] then []
    else if parts[0] == "**" then
      (if |parts| > 1 then RemoteWalk(g, rank, m, d, path, parts[1..]) else [path])
      + RemoteStarEntries(g, rank, m, EntriesOf(g, d), Height(g, rank, d), path, parts)
    else
      RemoteNameEntries(g, rank, m, EntriesOf(g, d), Height(g, rank, d), path, parts)
  }

  function RemoteStarEntries(g: Graph, ghost rank: Key -> nat, m: Matcher, es: seq<Entry>, ghost height: nat,
                             path: seq<string>, parts: seq<string>): seq<seq<string>>
    requires Descends(g, rank) && AllLower(g, rank, es, height) && parts != []
    decreases |parts|, height, 0, |es|
  {
    if es == [] then []
    else
      (if Dots(es[0].name) then []
       else if es[0].target.Dir? then RemoteWalk(g, rank, m, es[0].target.id, path + [es[0].name], parts)
       else if |parts| == 1 then [path + [es[0].name]]
       else [])
      + RemoteStarEntries(g, rank, m, es[1..], height, path, parts)
  }

  function RemoteNameEntries(g: Graph, ghost rank: Key -> nat, m: Matcher, es: seq<Entry>, ghost height: nat,
                             path: seq<string>, parts: seq<string>): seq<seq<string>>
    requires Descends(g, rank) && AllLower(g, rank, es, height) && parts != []
    decreases |parts|, height, 0, |es|
  {
    if es == [] then []
    else
      (if Dots(es[0].name) || !m(parts[0], es[0].name) then []
       else if |parts| == 1 then [path + [es[0].name]]
       else if es[0].target.Dir? then RemoteWalk(g, rank, m, es[0].target.id, path + [es[0].name], parts[1..])
       else [])
      + RemoteNameEntries(g, rank, m, es[1..], height, path, parts)
  }

  // ---- dot entries ---------------------------------------------------------

  function WithoutDots(es: seq<Entry>): seq<Entry> {
    if es == [] then [] else (if Dots(es[0].name) then [] else [es[0]]) + WithoutDots(es[1..])
  }

  /** The graph without the entries `.` and `..`. */
  function Undotted(g: Graph): Graph {
    map d | d in g :: g[d].(entries := if g[d].entries.Some? then Some(WithoutDots(g[d].entries.value)) else None)
  }

  lemma {:induction false} DotsGone(es: seq<Entry>)
    ensures forall e :: e in WithoutDots(es) <==> e in es && !Dots(e.name)
  {
    if es != [] {
      DotsGone(es[1..]);
      assert forall e :: e in es <==> e == es[0] || e in es[1..];
    }
  }

  lemma {:induction false} StillDistinct(es: seq<Entry>)
    requires DistinctNames(es)
    ensures DistinctNames(WithoutDots(es))
  {
    hide Dots;
    if es != [] {
      StillDistinct(es[1..]);
      DotsGone(es[1..]);
      var rest := WithoutDots(es[1..]);
      forall e | e in rest
        ensures e.name != es[0].name
      {
        var k :| 0 <= k < |es[1..]| && es[1..][k] == e;
        assert es[k + 1] == e;
      }
    }
  }

  lemma FewerEntries(g: Graph, es: seq<Entry>)
    ensures forall e :: e in WithoutDots(es) <==> e in es && !Dots(e.name)
    ensures DistinctNames(es) ==> DistinctNames(WithoutDots(es))
    ensures SoundEntries(g, es) ==> SoundEntries(g, WithoutDots(es))
  {
    hide WithoutDots, DistinctNames;
    DotsGone(es);
    if DistinctNames(es) {
      StillDistinct(es);
    }
    if SoundEntries(g, es) {
      forall k | 0 <= k < |WithoutDots(es)| && WithoutDots(es)[k].target.Dir?
        ensures WithoutDots(es)[k].target.id in g
      {
        assert WithoutDots(es)[k] in es;
      }
    }
  }

  lemma UndottedDescends(g: Graph, rank: Key -> nat)
    requires Descends(g, rank)
    ensures Sound(Undotted(g))
    ensures forall d :: d in g ==> Height(Undotted(g), rank, d) == Height(g, rank, d)
    ensures Descends(Undotted(g), rank)
  {
    var u := Undotted(g);
    forall d | d in u
      ensures SoundDirectory(u, u[d])
    {
      assert SoundDirectory(g, g[d]);
      FewerEntries(u, EntriesOf(g, d));
    }
    forall d | d in u
      ensures AllLower(u, rank, EntriesOf(u, d), Height(u, rank, d))
    {
      FewerEntries(u, EntriesOf(g, d));
      assert AllLower(g, rank, EntriesOf(g, d), Height(g, rank, d));
      forall k | 0 <= k < |EntriesOf(u, d)| && EntriesOf(u, d)[k].target.Dir?
        ensures EntriesOf(u, d)[k].target.id in u
                && Height(u, rank, EntriesOf(u, d)[k].target.id) < Height(u, rank, d)
      {
        var e := EntriesOf(u, d)[k];
        assert e in WithoutDots(EntriesOf(g, d));
        var j :| 0 <= j < |EntriesOf(g, d)| && EntriesOf(g, d)[j] == e;
      }
    }
  }

  /** The remote walk goes through no `.` and no `..` and yields neither: it is the walk of the graph
      without them. */
  lemma {:induction false} RemoteSkipsDots(g: Graph, rank: Key -> nat, m: Matcher, d: nat, path: seq<string>,
                                           parts: seq<string>)
    requires Descends(g, rank) && Descends(Undotted(g), rank) && d in g
    ensures RemoteWalk(g, rank, m, d, path, parts) == RemoteWalk(Undotted(g), rank, m, d, path, parts)
    decreases |parts|, Height(g, rank, d), 1, 0
  {
    if parts != [] {
      UndottedDescends(g, rank);
      RemoteStarSkipsDots(g, rank, m, EntriesOf(g, d), Height(g, rank, d), path, parts);
      RemoteNamesSkipDots(g, rank, m, EntriesOf(g, d), Height(g, rank, d), path, parts);
      if |parts| > 1 {
        RemoteSkipsDots(g, rank, m, d, path, parts[1..]);
      }
    }
  }

  lemma {:induction false} StillLower(g: Graph, rank: Key -> nat, es: seq<Entry>, height: nat)
    requires Descends(g, rank) && Descends(Undotted(g), rank) && AllLower(g, rank, es, height)
    requires forall d :: d in g ==> Height(Undotted(g), rank, d) == Height(g, rank, d)
    ensures AllLower(Undotted(g), rank, WithoutDots(es), height)
  {
    hide Undotted, WithoutDots;
    DotsGone(es);
    forall k | 0 <= k < |WithoutDots(es)| && WithoutDots(es)[k].target.Dir?
      ensures WithoutDots(es)[k].target.id in g
              && Height(g, rank, WithoutDots(es)[k].target.id) < height
    {
      assert WithoutDots(es)[k] in es;
    }
    UndottedKeys(g);
  }

  lemma UndottedKeys(g: Graph)
    ensures Undotted(g).Keys == g.Keys
  {
  }

  lemma {:induction false} RemoteStarSkipsDots(g: Graph, rank: Key -> nat, m: Matcher, es: seq<Entry>, height: nat,
                                               path: seq<string>, parts: seq<string>)
    requires Descends(g, rank) && Descends(Undotted(g), rank) && AllLower(g, rank, es, height) && parts != []
    ensures AllLower(Undotted(g), rank, WithoutDots(es), height)
    ensures RemoteStarEntries(g, rank, m, es, height, path, parts)
            == RemoteStarEntries(Undotted(g), rank, m, WithoutDots(es), height, path, parts)
    decreases |parts|, height, 0, |es|
  {
    hide RemoteWalk, Undotted;
    UndottedDescends(g, rank);
    StillLower(g, rank, es, height);
    if es != [] {
      RemoteStarSkipsDots(g, rank, m, es[1..], height, path, parts);
      var rest := WithoutDots(es[1..]);
      assert WithoutDots(es) == if Dots(es[0].name) then rest else [es[0]] + rest;
      assert ([es[0]] + rest)[1..] == rest;
      if !Dots(es[0].name) && es[0].target.Dir? {
        RemoteSkipsDots(g, rank, m, es[0].target.id, path + [es[0].name], parts);
      }
    }
  }

  lemma {:induction false} RemoteNamesSkipDots(g: Graph, rank: Key -> nat, m: Matcher, es: seq<Entry>, height: nat,
                                               path: seq<string>, parts: seq<string>)
    requires Descends(g, rank) && Descends(Undotted(g), rank) && AllLower(g, rank, es, height) && parts != []
    ensures AllLower(Undotted(g), rank, WithoutDots(es), height)
    ensures RemoteNameEntries(g, rank, m, es, height, path, parts)
            == RemoteNameEntries(Undotted(g), rank, m, WithoutDots(es), height, path, parts)
    decreases |parts|, height, 0, |es|
  {
    hide RemoteWalk, Undotted;
    UndottedDescends(g, rank);
    StillLower(g, rank, es, height);
    if es != [] {
      RemoteNamesSkipDots(g, rank, m, es[1..], height, path, parts);
      var rest := WithoutDots(es[1..]);
      assert WithoutDots(es) == if Dots(es[0].name) then rest else [es[0]] + rest;
      assert ([es[0]] + rest)[1..] == rest;
      if !Dots(es[0].name) && es[0].target.Dir? {
        RemoteSkipsDots(g, rank, m, es[0].target.id, path + [es[0].name], parts[1..]);
      }
    }
  }

  // ---- the two walks agree -------------------------------------------------

  /** Listings the two file systems show alike: no dot entries, nothing that cannot be examined. */
  ghost predicate Plain(g: Graph) {
    forall d :: d in g ==> PlainEntries(EntriesOf(g, d))
  }

  ghost predicate PlainEntries(es: seq<Entry>) {
    forall k :: 0 <= k < |es| ==> !Dots(es[k].name) && !es[k].target.Broken?
  }

  /** No key on the way belongs to a directory lower than this. */
  ghost predicate AllAbove(rank: Key -> nat, visited: set<Key>, height: nat) {
    forall k :: k in visited ==> rank(k) >= height
  }

  lemma {:induction false} RemoteWalkAgrees(g: Graph, rank: Key -> nat, m: Matcher, d: nat, path: seq<string>,
                                            parts: seq<string>, visited: set<Key>)
    requires Descends(g, rank) && Plain(g) && d in g && AllAbove(rank, visited, Height(g, rank, d))
    ensures RemoteWalk(g, rank, m, d, path, parts) == Walk(g, m, d, path, parts, visited)
    decreases |parts|, Height(g, rank, d), 1, 0
  {
    assert SoundDirectory(g, g[d]);
    if parts == [] {
    } else if parts[0] == "**" {
      if |parts| > 1 {
        RemoteWalkAgrees(g, rank, m, d, path, parts[1..], visited);
      }
      RemoteStarEntriesAgree(g, rank, m, EntriesOf(g, d), Height(g, rank, d), path, parts, visited);
    } else {
      RemoteNameEntriesAgree(g, rank, m, EntriesOf(g, d), Height(g, rank, d), path, parts, visited);
    }
  }

  lemma {:induction false} RemoteStarEntriesAgree(g: Graph, rank: Key -> nat, m: Matcher, es: seq<Entry>, height: nat,
                                                  path: seq<string>, parts: seq<string>, visited: set<Key>)
    requires Descends(g, rank) && Plain(g) && AllLower(g, rank, es, height) && SoundEntries(g, es) && PlainEntries(es)
    requires parts != [] && AllAbove(rank, visited, height)
    ensures RemoteStarEntries(g, rank, m, es, height, path, parts) == StarEntries(g, m, es, path, parts, visited)
    decreases |parts|, height, 0, |es|
  {
    hide RemoteWalk, Walk;
    if es != [] {
      RemoteStarEntriesAgree(g, rank, m, es[1..], height, path, parts, visited);
      if es[0].target.Dir? {
        var c := es[0].target.id;
        assert SoundDirectory(g, g[c]);
        RemoteWalkAgrees(g, rank, m, c, path + [es[0].name], parts, visited + {KeyOf(g, c)});
      }
    }
  }

  lemma {:induction false} RemoteNameEntriesAgree(g: Graph, rank: Key -> nat, m: Matcher, es: seq<Entry>, height: nat,
                                                  path: seq<string>, parts: seq<string>, visited: set<Key>)
    requires Descends(g, rank) && Plain(g) && AllLower(g, rank, es, height) && SoundEntries(g, es) && PlainEntries(es)
    requires parts != [] && AllAbove(rank, visited, height)
    ensures RemoteNameEntries(g, rank, m, es, height, path, parts) == NameEntries(g, m, es, path, parts, visited)
    decreases |parts|, height, 0, |es|
  {
    hide RemoteWalk, Walk;
    if es != [] {
      RemoteNameEntriesAgree(g, rank, m, es[1..], height, path, parts, visited);
      if es[0].target.Dir? && |parts| > 1 {
        var c := es[0].target.id;
        assert SoundDirectory(g, g[c]);
        RemoteWalkAgrees(g, rank, m, c, path + [es[0].name], parts[1..], visited + {KeyOf(g, c)});
      }
    }
  }

  /** Over a tree the local and the remote glob yield the same paths in the same order. */
  lemma GlobsAgree(g: Graph, rank: Key -> nat, m: Matcher, root: nat, parts: seq<string>)
    requires Descends(g, rank) && Plain(g) && root in g
    ensures RemoteWalk(g, rank, m, root, [], parts) == GlobFrom(g, m, root, parts)
  {
    assert SoundDirectory(g, g[root]);
    RemoteWalkAgrees(g, rank, m, root, [], parts, {KeyOf(g, root)});
  }

  /** And so with dot entries: the remote glob yields what the local one would without them. */
  lemma DottedGlobsAgree(g: Graph, rank: Key -> nat, m: Matcher, root: nat, parts: seq<string>)
    requires Descends(g, rank) && root in g && Plain(Undotted(g))
    ensures Sound(Undotted(g)) && RemoteWalk(g, rank, m, root, [], parts) == GlobFrom(Undotted(g), m, root, parts)
  {
    hide RemoteWalk, GlobFrom, Plain;
    UndottedDescends(g, rank);
    RemoteSkipsDots(g, rank, m, root, [], parts);
    GlobsAgree(Undotted(g), rank, m, root, parts);
  }

  // ---- over a tree, exactly the matching paths -----------------------------

  /** Dot entries included. */
  ghost predicate Acyclic(g: Graph, rank: Key -> nat) {
    Sound(g) && forall d :: d in g ==> EachLower(g, rank, EntriesOf(g, d), Height(g, rank, d))
  }

  ghost predicate EachLower(g: Graph, rank: Key -> nat, es: seq<Entry>, height: nat)
    requires Sound(g)
  {
    forall k :: 0 <= k < |es| && es[k].target.Dir? ==> es[k].target.id in g && Height(g, rank, es[k].target.id) < height
  }

  /** Where a list of names leads, no directory ruled out. */
  function Reach(g: Graph, d: nat, ns: seq<string>): Place
    requires Sound(g) && d in g
    decreases |ns|
  {
    if ns == [] then AtDir(d)
    else
      match Lookup(EntriesOf(g, d), ns[0])
      case None => Nowhere
      case Some(File) => if |ns| == 1 then AtFile else Nowhere
      case Some(Broken) => if |ns| == 1 then AtBroken else Nowhere
      case Some(Dir(c)) =>
        assert SoundDirectory(g, g[d]);
        Reach(g, c, ns[1..])
  }

  lemma {:induction false} NothingSeenTwice(g: Graph, rank: Key -> nat, d: nat, visited: set<Key>, ns: seq<string>)
    requires Acyclic(g, rank) && d in g && AllAbove(rank, visited, Height(g, rank, d))
    ensures Resolve(g, d, visited, ns) == Reach(g, d, ns)
    decreases |ns|
  {
    if ns != [] {
      var t := Lookup(EntriesOf(g, d), ns[0]);
      if t.Some? && t.value.Dir? {
        var c := t.value.id;
        assert SoundDirectory(g, g[d]) && SoundDirectory(g, g[c]);
        NothingSeenTwice(g, rank, c, visited + {KeyOf(g, c)}, ns[1..]);
      }
    }
  }

  /** Over a tree a glob yields exactly the paths that exist and match, each as often as there are
      ways to match it, and so none twice if the pattern has at most one `**`. */
  lemma TreeGlob(g: Graph, rank: Key -> nat, m: Matcher, root: nat, parts: seq<string>)
    requires Acyclic(g, rank) && root in g
    ensures forall y :: y in GlobFrom(g, m, root, parts) <==> WantedAt(m, parts, y, Reach(g, root, y))
    ensures forall y :: multiset(GlobFrom(g, m, root, parts))[y] == WaysAt(m, parts, y, Reach(g, root, y))
    ensures Stars(parts) <= 1 ==> NoRepeats(GlobFrom(g, m, root, parts))
  {
    hide Walk, WantedAt, WaysAt;
    assert SoundDirectory(g, g[root]);
    var visited := {KeyOf(g, root)};
    forall y: seq<string>
      ensures y in GlobFrom(g, m, root, parts) <==> WantedAt(m, parts, y, Reach(g, root, y))
      ensures multiset(GlobFrom(g, m, root, parts))[y] == WaysAt(m, parts, y, Reach(g, root, y))
    {
      WalkYieldsEachWay(g, m, root, [], parts, visited, y);
      assert y[0..] == y;
      NothingSeenTwice(g, rank, root, visited, y);
      WantedInSomeWay(m, parts, y, Reach(g, root, y));
    }
    if Stars(parts) <= 1 {
      WalkYieldsOnce(g, m, root, [], parts, visited);
    }
  }

  lemma TwoStarWays(m: Matcher, name: string)
    ensures Ways(m, ["**", "**"], [name]) == 2
  {
    var parts, y := ["**", "**"], [name];
    assert parts[1..] == ["**"] && y[1..] == [];
    LastStarWays(m, y);
    LastStarWays(m, []);
    assert Ways(m, parts, []) == 1;
  }

  /** With two `**` a path can come twice: each directory below the root does for the pattern made
      of two of them. */
  lemma TwoStarsRepeat(g: Graph, m: Matcher, root: nat, name: string)
    requires Sound(g) && root in g
    requires assert SoundDirectory(g, g[root]); Enter(g, root, {KeyOf(g, root)}, name).Some?
    ensures multiset(GlobFrom(g, m, root, ["**", "**"]))[[name]] == 2
    ensures !NoRepeats(GlobFrom(g, m, root, ["**", "**"]))
  {
    hide Walk, Enter, Ways, Resolve, NoRepeats;
    assert SoundDirectory(g, g[root]);
    var visited, parts, y := {KeyOf(g, root)}, ["**", "**"], [name];
    FirstName(g, root, visited, y);
    WalkYieldsEachWay(g, m, root, [], parts, visited, y);
    assert y[0..] == y;
    TwoStarWays(m, name);
    NoRepeatsMeansOnce(GlobFrom(g, m, root, parts));
  }
}
