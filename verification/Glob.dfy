// packages/kaos/src/local.ts and ssh.ts: walking a directory graph for the paths a glob
// pattern matches. A directory is known by an id; links are followed, so the graph may have
// cycles. How one pattern segment matches one name is a parameter.
module Glob {
  import opened Wrappers

  type Key = (int, int)

  type Matcher = (string, string) -> bool

  /** What a name leads to; Broken when it cannot be examined. */
  datatype Target = File | Dir(id: nat) | Broken

  datatype Entry = Entry(name: string, target: Target)

  /** dev and ino identify a directory, unless ino is 0; entries is None when it cannot be read. */
  datatype Directory = Directory(dev: int, ino: int, entries: Option<seq<Entry>>)

  type Graph = map<nat, Directory>

  function CycleKey(d: Directory): Option<Key> {
    if d.ino == 0 then None else Some((d.dev, d.ino))
  }

  predicate DistinctNames(es: seq<Entry>) {
    forall i, j :: 0 <= i < j < |es| ==> es[i].name != es[j].name
  }

  /** Links stay inside the graph, names in a directory are distinct, and every directory has a
      key. */
  ghost predicate Sound(g: Graph) {
    forall d :: d in g ==> SoundDirectory(g, g[d])
  }

  ghost predicate SoundDirectory(g: Graph, dir: Directory) {
    && CycleKey(dir).Some?
    && (dir.entries.Some? ==> DistinctNames(dir.entries.value) && SoundEntries(g, dir.entries.value))
  }

  ghost predicate SoundEntries(g: Graph, es: seq<Entry>) {
    forall k :: 0 <= k < |es| && es[k].target.Dir? ==> es[k].target.id in g
  }

  function KeyOf(g: Graph, d: nat): Key
    requires d in g && CycleKey(g[d]).Some?
  {
    CycleKey(g[d]).value
  }

  /** All the keys there are. */
  ghost function AllKeys(g: Graph): set<Key> {
    set d | d in g && CycleKey(g[d]).Some? :: CycleKey(g[d]).value
  }

  // ---- the walk ------------------------------------------------------------

  /** The paths yielded below directory d, reached by `path`, for the pattern parts left. The
      measure is the parts left, then the keys not yet on the way here. */
  function Walk(g: Graph, m: Matcher, d: nat, path: seq<string>, parts: seq<string>, visited: set<Key>)
    : seq<seq<string>>
    requires Sound(g) && d in g
    decreases |parts|, |AllKeys(g) - visited|, 1, 0
  {
    if parts == [] then []
    else
      assert SoundDirectory(g, g[d]);
      var es := if g[d].entries.Some? then g[d].entries.value else [];
      if parts[0] == "**" then
        (if |parts| > 1 then Walk(g, m, d, path, parts[1..], visited) else [path])
        + StarEntries(g, m, es, path, parts, visited)
      else
        NameEntries(g, m, es, path, parts, visited)
  }

  lemma FewerKeys(g: Graph, c: nat, visited: set<Key>)
    requires c in g && CycleKey(g[c]).Some? && KeyOf(g, c) !in visited
    ensures |AllKeys(g) - (visited + {KeyOf(g, c)})| < |AllKeys(g) - visited|
  {
    var k := KeyOf(g, c);
    assert k in AllKeys(g) - visited;
    assert AllKeys(g) - (visited + {k}) == (AllKeys(g) - visited) - {k};
  }

  function StarEntries(g: Graph, m: Matcher, es: seq<Entry>, path: seq<string>, parts: seq<string>, visited: set<Key>)
    : seq<seq<string>>
    requires Sound(g) && SoundEntries(g, es) && parts != []
    decreases |parts|, |AllKeys(g) - visited|, 0, |es|
  {
    if es == [] then []
    else
      (match es[0].target
       case Broken => []
       case File => if |parts| == 1 then [path + [es[0].name]] else []
       case Dir(c) =>
         assert c in g && SoundDirectory(g, g[c]);
         if KeyOf(g, c) in visited then []
         else
           FewerKeys(g, c, visited);
           Walk(g, m, c, path + [es[0].name], parts, visited + {KeyOf(g, c)}))
      + StarEntries(g, m, es[1..], path, parts, visited)
  }

  function NameEntries(g: Graph, m: Matcher, es: seq<Entry>, path: seq<string>, parts: seq<string>, visited: set<Key>)
    : seq<seq<string>>
    requires Sound(g) && SoundEntries(g, es) && parts != []
    decreases |parts|, |AllKeys(g) - visited|, 0, |es|
  {
    if es == [] then []
    else
      (if !m(parts[0], es[0].name) then []
       else if |parts| == 1 then [path + [es[0].name]]
       else if !es[0].target.Dir? then []
       else
         var c := es[0].target.id;
         assert c in g && SoundDirectory(g, g[c]);
         if KeyOf(g, c) in visited then []
         else Walk(g, m, c, path + [es[0].name], parts[1..], visited + {KeyOf(g, c)}))
      + NameEntries(g, m, es[1..], path, parts, visited)
  }

  /** The whole glob: the root's own key is on the way from the start. */
  function GlobFrom(g: Graph, m: Matcher, root: nat, parts: seq<string>): seq<seq<string>>
    requires Sound(g) && root in g
  {
    assert SoundDirectory(g, g[root]);
    Walk(g, m, root, [], parts, {KeyOf(g, root)})
  }

  // ---- what a pattern means ------------------------------------------------

  /** Pattern parts against names: `**` stands for any number of names. */
  predicate Matches(m: Matcher, parts: seq<string>, ns: seq<string>)
    decreases |parts| + |ns|
  {
    if parts == [] then ns == []
    else if parts[0] == "**" then Matches(m, parts[1..], ns) || (ns != [] && Matches(m, parts, ns[1..]))
    else ns != [] && m(parts[0], ns[0]) && Matches(m, parts[1..], ns[1..])
  }

  /** Where a list of names leads, passing only through directories not on the way already. */
  datatype Place = Nowhere | AtDir(id: nat) | AtFile | AtBroken | AtSeenDir

  function Lookup(es: seq<Entry>, name: string): Option<Target>
    ensures Lookup(es, name).Some? ==> exists k :: 0 <= k < |es| && es[k] == Entry(name, Lookup(es, name).value)
  {
    if es == [] then None else if es[0].name == name then Some(es[0].target) else Lookup(es[1..], name)
  }

  function EntriesOf(g: Graph, d: nat): seq<Entry>
    requires d in g
  {
    if g[d].entries.Some? then g[d].entries.value else []
  }

  function Resolve(g: Graph, d: nat, visited: set<Key>, ns: seq<string>): Place
    requires Sound(g) && d in g
    decreases |ns|
  {
    if ns == [] then AtDir(d)
    else
      match Lookup(EntriesOf(g, d), ns[0])
      case None => Nowhere
      case Some(File) => if |ns| == 1 then AtFile else Nowhere
      case Some(Broken) => if |ns| == 1 then AtBroken else Nowhere
      case Some(Dir(c)) =>
        assert SoundDirectory(g, g[d]) && c in g && SoundDirectory(g, g[c]);
        if KeyOf(g, c) in visited then if |ns| == 1 then AtSeenDir else Nowhere
        else Resolve(g, c, visited + {KeyOf(g, c)}, ns[1..])
  }

  /** What the walk promises: the names match the pattern, and lead to something. A pattern ending
      in `**` yields directories it can enter and the files directly inside what it matches. */
  predicate Wanted(g: Graph, m: Matcher, d: nat, visited: set<Key>, parts: seq<string>, ns: seq<string>)
    requires Sound(g) && d in g
  {
    WantedAt(m, parts, ns, Resolve(g, d, visited, ns))
  }

  predicate WantedAt(m: Matcher, parts: seq<string>, ns: seq<string>, place: Place) {
    && parts != []
    && if parts[|parts| - 1] == "**" then
         (place.AtDir? && Matches(m, parts, ns)) || (place.AtFile? && ns != [] && Matches(m, parts, ns[..|ns| - 1]))
       else ns != [] && place != Nowhere && Matches(m, parts, ns)
  }

  // ---- the walk yields exactly what is wanted ------------------------------

  /** The directory a name leads into, if it is not on the way already, and what is then. */
  function Enter(g: Graph, d: nat, visited: set<Key>, name: string): (r: Option<(nat, set<Key>)>)
    requires Sound(g) && d in g
    ensures r.Some? ==> r.value.0 in g
  {
    match Lookup(EntriesOf(g, d), name)
    case Some(Dir(c)) =>
      assert SoundDirectory(g, g[d]) && c in g && SoundDirectory(g, g[c]);
      if KeyOf(g, c) in visited then None else Some((c, visited + {KeyOf(g, c)}))
    case _ => None
  }

  /** The first name leads into a directory not on the way, below which the rest is wanted. */
  predicate WantedBelow(g: Graph, m: Matcher, d: nat, visited: set<Key>, parts: seq<string>, ns: seq<string>)
    requires Sound(g) && d in g
  {
    && ns != []
    && var e := Enter(g, d, visited, ns[0]);
       e.Some? && Wanted(g, m, e.value.0, e.value.1, parts, ns[1..])
  }

  lemma {:induction false} StarMatchesAll(m: Matcher, ns: seq<string>)
    ensures Matches(m, ["**"], ns)
    decreases |ns|
  {
    if ns != [] {
      StarMatchesAll(m, ns[1..]);
    }
  }

  /** The first name, and where it leads. */
  lemma FirstName(g: Graph, d: nat, visited: set<Key>, ns: seq<string>)
    requires Sound(g) && d in g && ns != []
    ensures var place, e, t := Resolve(g, d, visited, ns), Enter(g, d, visited, ns[0]), Lookup(EntriesOf(g, d), ns[0]);
            if e.Some? then place == Resolve(g, e.value.0, e.value.1, ns[1..]) && (|ns| == 1 ==> place.AtDir?)
            else
              && !place.AtDir?
              && (|ns| > 1 ==> place == Nowhere)
              && (|ns| == 1 ==> (place.AtFile? <==> t == Some(File)) && (place == Nowhere <==> t == None))
  {
    assert |ns| == 1 ==> ns[1..] == [];
  }

  /** What is known of a place, given whether the first name could be entered. */
  predicate PlaceFits(place: Place, ns: seq<string>, entered: bool) {
    if ns == [] then place.AtDir? && !entered
    else if entered then |ns| == 1 ==> place.AtDir?
    else !place.AtDir? && (|ns| > 1 ==> place == Nowhere)
  }

  lemma StarAt(m: Matcher, parts: seq<string>, ns: seq<string>, place: Place, entered: bool)
    requires |parts| > 1 && parts[0] == "**" && PlaceFits(place, ns, entered)
    ensures WantedAt(m, parts, ns, place)
            <==> WantedAt(m, parts[1..], ns, place) || (entered && WantedAt(m, parts, ns[1..], place))
  {
    assert parts[1..][|parts| - 2] == parts[|parts| - 1];
    if |ns| == 1 {
      assert ns[1..] == [] && ns[..0] == [];
      NoNamesLeft(m, parts);
    } else if |ns| > 1 {
      assert ns[..|ns| - 1][1..] == ns[1..][..|ns| - 2];
    }
  }

  lemma NamesAt(m: Matcher, parts: seq<string>, ns: seq<string>, place: Place, entered: bool)
    requires |parts| > 1 && parts[0] != "**" && PlaceFits(place, ns, entered)
    ensures WantedAt(m, parts, ns, place)
            <==> ns != [] && m(parts[0], ns[0]) && entered && WantedAt(m, parts[1..], ns[1..], place)
  {
    assert parts[1..][|parts| - 2] == parts[|parts| - 1];
    if |ns| == 1 {
      assert ns[1..] == [] && ns[..0] == [];
      NoNamesLeft(m, parts[1..]);
    } else if |ns| > 1 {
      assert ns[..|ns| - 1][1..] == ns[1..][..|ns| - 2];
    }
  }

  lemma WantedStar(g: Graph, m: Matcher, d: nat, visited: set<Key>, parts: seq<string>, ns: seq<string>)
    requires Sound(g) && d in g && |parts| > 1 && parts[0] == "**"
    ensures Wanted(g, m, d, visited, parts, ns)
            <==> Wanted(g, m, d, visited, parts[1..], ns) || WantedBelow(g, m, d, visited, parts, ns)
  {
    hide WantedAt, Enter;
    if ns != [] {
      FirstName(g, d, visited, ns);
    }
    StarAt(m, parts, ns, Resolve(g, d, visited, ns), ns != [] && Enter(g, d, visited, ns[0]).Some?);
  }

  /** An empty list of names needs nothing but `**`s. */
  lemma {:induction false} NoNamesLeft(m: Matcher, parts: seq<string>)
    ensures Matches(m, parts, []) ==> parts == [] || parts[|parts| - 1] == "**"
    decreases |parts|
  {
    if parts != [] && parts[0] == "**" {
      NoNamesLeft(m, parts[1..]);
    }
  }

  lemma WantedLastStar(g: Graph, m: Matcher, d: nat, visited: set<Key>, parts: seq<string>, ns: seq<string>)
    requires Sound(g) && d in g && parts == ["**"]
    ensures Wanted(g, m, d, visited, parts, ns)
            <==> ns == [] || (|ns| == 1 && Lookup(EntriesOf(g, d), ns[0]) == Some(File))
                 || WantedBelow(g, m, d, visited, parts, ns)
  {
    hide Enter, Matches;
    StarMatchesAll(m, ns);
    if ns != [] {
      FirstName(g, d, visited, ns);
      StarMatchesAll(m, ns[1..]);
      StarMatchesAll(m, ns[..|ns| - 1]);
      if ns[1..] != [] {
        StarMatchesAll(m, ns[1..][..|ns| - 2]);
      }
    }
  }

  lemma WantedName(g: Graph, m: Matcher, d: nat, visited: set<Key>, parts: seq<string>, ns: seq<string>)
    requires Sound(g) && d in g && |parts| == 1 && parts[0] != "**"
    ensures Wanted(g, m, d, visited, parts, ns)
            <==> |ns| == 1 && m(parts[0], ns[0]) && Lookup(EntriesOf(g, d), ns[0]).Some?
  {
    if ns != [] {
      FirstName(g, d, visited, ns);
      assert parts[1..] == [] && (ns[1..] == [] <==> |ns| == 1);
      assert Matches(m, parts[1..], ns[1..]) <==> |ns| == 1;
      assert Matches(m, parts, ns) <==> m(parts[0], ns[0]) && |ns| == 1;
    }
  }

  lemma WantedNames(g: Graph, m: Matcher, d: nat, visited: set<Key>, parts: seq<string>, ns: seq<string>)
    requires Sound(g) && d in g && |parts| > 1 && parts[0] != "**"
    ensures Wanted(g, m, d, visited, parts, ns)
            <==> ns != [] && m(parts[0], ns[0]) && WantedBelow(g, m, d, visited, parts[1..], ns)
  {
    hide WantedAt, Enter;
    if ns != [] {
      FirstName(g, d, visited, ns);
    }
    NamesAt(m, parts, ns, Resolve(g, d, visited, ns), ns != [] && Enter(g, d, visited, ns[0]).Some?);
  }

  /** The walk below one entry of a directory, for a path y. */
  predicate Below(g: Graph, m: Matcher, t: Target, path: seq<string>, parts: seq<string>, visited: set<Key>,
                  y: seq<string>)
    requires Sound(g) && (t.Dir? ==> t.id in g)
  {
    && t.Dir? && (assert SoundDirectory(g, g[t.id]);
                  KeyOf(g, t.id) !in visited
                  && y in Walk(g, m, t.id, path, parts, visited + {KeyOf(g, t.id)}))
  }

  /** What StarEntries and NameEntries yield, entry by entry. */
  ghost predicate FromEntry(g: Graph, m: Matcher, es: seq<Entry>, star: bool, path: seq<string>, parts: seq<string>,
                            visited: set<Key>, y: seq<string>)
    requires Sound(g) && SoundEntries(g, es) && parts != []
  {
    && path < y
    && var name := y[|path|];
       var t := Lookup(es, name);
       && t.Some?
       && if star then
            (t.value.File? && |parts| == 1 && y == path + [name])
            || Below(g, m, t.value, path + [name], parts, visited, y)
          else
            m(parts[0], name)
            && if |parts| == 1 then y == path + [name] else Below(g, m, t.value, path + [name], parts[1..], visited, y)
  }

  lemma {:induction false} LookupUnique(es: seq<Entry>, k: nat)
    requires DistinctNames(es) && k < |es|
    ensures Lookup(es, es[k].name) == Some(es[k].target)
    decreases |es|
  {
    if k > 0 {
      assert es[1..][k - 1] == es[k];
      LookupUnique(es[1..], k - 1);
    }
  }

  lemma {:induction false} StarEntriesExactly(g: Graph, m: Matcher, es: seq<Entry>, path: seq<string>,
                                              parts: seq<string>, visited: set<Key>, y: seq<string>)
    requires Sound(g) && SoundEntries(g, es) && DistinctNames(es) && parts != []
    ensures y in StarEntries(g, m, es, path, parts, visited)
            <==> FromEntry(g, m, es, true, path, parts, visited, y)
    decreases |parts|, |AllKeys(g) - visited|, 0, |es|
  {
    hide Wanted, Walk;
    if es != [] {
      var e := es[0];
      StarEntriesExactly(g, m, es[1..], path, parts, visited, y);
      if e.target.Dir? {
        var c := e.target.id;
        assert SoundDirectory(g, g[c]);
        if KeyOf(g, c) !in visited {
          FewerKeys(g, c, visited);
          WalkExactly(g, m, c, path + [e.name], parts, visited + {KeyOf(g, c)}, y);
        }
      }
      NotAmongRest(es);
    }
  }

  lemma {:induction false} NameEntriesExactly(g: Graph, m: Matcher, es: seq<Entry>, path: seq<string>,
                                              parts: seq<string>, visited: set<Key>, y: seq<string>)
    requires Sound(g) && SoundEntries(g, es) && DistinctNames(es) && parts != []
    ensures y in NameEntries(g, m, es, path, parts, visited)
            <==> FromEntry(g, m, es, false, path, parts, visited, y)
    decreases |parts|, |AllKeys(g) - visited|, 0, |es|
  {
    hide Wanted, Walk;
    if es != [] {
      var e := es[0];
      NameEntriesExactly(g, m, es[1..], path, parts, visited, y);
      if e.target.Dir? && |parts| > 1 {
        var c := e.target.id;
        assert SoundDirectory(g, g[c]);
        if KeyOf(g, c) !in visited {
          WalkExactly(g, m, c, path + [e.name], parts[1..], visited + {KeyOf(g, c)}, y);
        }
      }
      NotAmongRest(es);
    }
  }

  lemma NotAmongRest(es: seq<Entry>)
    requires es != [] && DistinctNames(es)
    ensures Lookup(es[1..], es[0].name) == None
  {
  }

  /** Seen from the directory: the entry's part of the walk is what is wanted below it. */
  lemma EntryWanted(g: Graph, m: Matcher, d: nat, path: seq<string>, parts: seq<string>, visited: set<Key>,
                    y: seq<string>)
    requires Sound(g) && d in g && parts != [] && path < y
    requires var e := Enter(g, d, visited, y[|path|]);
             e.Some? ==> (y in Walk(g, m, e.value.0, path + [y[|path|]], parts, e.value.1)
                          <==> path + [y[|path|]] <= y && Wanted(g, m, e.value.0, e.value.1, parts, y[|path| + 1..]))
    ensures assert SoundDirectory(g, g[d]);
            var t := Lookup(EntriesOf(g, d), y[|path|]);
            t.Some? && Below(g, m, t.value, path + [y[|path|]], parts, visited, y)
            <==> WantedBelow(g, m, d, visited, parts, y[|path|..])
  {
    hide Wanted, Walk;
    assert y[|path|..][1..] == y[|path| + 1..];
  }

  /** The walk yields exactly the paths wanted, on every finite graph, cycles or not: those whose
      names match the pattern and lead, without entering a directory already on the way, to
      something. */
  lemma {:induction false} WalkExactly(g: Graph, m: Matcher, d: nat, path: seq<string>, parts: seq<string>,
                                       visited: set<Key>, y: seq<string>)
    requires Sound(g) && d in g
    ensures y in Walk(g, m, d, path, parts, visited)
            <==> path <= y && Wanted(g, m, d, visited, parts, y[|path|..])
    decreases |parts|, |AllKeys(g) - visited|, 1, 0
  {
    hide Wanted, WantedBelow, Enter;
    assert SoundDirectory(g, g[d]);
    var es := EntriesOf(g, d);
    NothingBelow(g, m, d, visited, parts);
    if parts == [] {
      NothingWanted(g, m, d, visited, parts);
    } else if parts[0] == "**" {
      StarEntriesExactly(g, m, es, path, parts, visited, y);
      if path < y {
        ChildExactly(g, m, d, path, parts, visited, y);
        EntryWanted(g, m, d, path, parts, visited, y);
      }
      if |parts| > 1 {
        WalkExactly(g, m, d, path, parts[1..], visited, y);
        if path <= y {
          WantedStar(g, m, d, visited, parts, y[|path|..]);
        }
      } else if path <= y {
        assert parts == ["**"];
        assert path < y ==> (y == path + [y[|path|]] <==> |y| == |path| + 1);
        assert path < y || y == path;
        WantedLastStar(g, m, d, visited, parts, y[|path|..]);
      }
    } else {
      NameEntriesExactly(g, m, es, path, parts, visited, y);
      if path < y && |parts| > 1 {
        ChildExactly(g, m, d, path, parts[1..], visited, y);
        EntryWanted(g, m, d, path, parts[1..], visited, y);
      }
      if path <= y {
        if |parts| == 1 {
          WantedName(g, m, d, visited, parts, y[|path|..]);
        } else {
          WantedNames(g, m, d, visited, parts, y[|path|..]);
        }
      }
    }
  }

  lemma EnterKeys(g: Graph, d: nat, visited: set<Key>, name: string)
    requires Sound(g) && d in g
    ensures var e := Enter(g, d, visited, name);
            e.Some? ==>
              && e.value.0 in g && CycleKey(g[e.value.0]).Some?
              && KeyOf(g, e.value.0) !in visited && e.value.1 == visited + {KeyOf(g, e.value.0)}
  {
  }

  lemma ChildExactly(g: Graph, m: Matcher, d: nat, path: seq<string>, parts: seq<string>, visited: set<Key>,
                     y: seq<string>)
    requires Sound(g) && d in g && path < y
    ensures var e := Enter(g, d, visited, y[|path|]);
            e.Some? ==> (y in Walk(g, m, e.value.0, path + [y[|path|]], parts, e.value.1)
                         <==> path + [y[|path|]] <= y && Wanted(g, m, e.value.0, e.value.1, parts, y[|path| + 1..]))
    decreases |parts|, |AllKeys(g) - visited|, 0, 0
  {
    hide Wanted, Walk, Enter;
    var e := Enter(g, d, visited, y[|path|]);
    EnterKeys(g, d, visited, y[|path|]);
    if e.Some? {
      FewerKeys(g, e.value.0, visited);
      var child := path + [y[|path|]];
      WalkExactly(g, m, e.value.0, child, parts, e.value.1, y);
      assert |child| == |path| + 1;
    }
  }

  lemma NothingBelow(g: Graph, m: Matcher, d: nat, visited: set<Key>, parts: seq<string>)
    requires Sound(g) && d in g
    ensures !WantedBelow(g, m, d, visited, parts, [])
    ensures parts != [] ==> !WantedBelow(g, m, d, visited, parts[1..], [])
  {
  }

  lemma NothingWanted(g: Graph, m: Matcher, d: nat, visited: set<Key>, parts: seq<string>)
    requires Sound(g) && d in g && parts == []
    ensures forall ns :: !Wanted(g, m, d, visited, parts, ns)
  {
  }

  // ---- how often a path is yielded ------------------------------------------

  /** In how many ways names match a pattern: how the names can be shared out among its parts. */
  function Ways(m: Matcher, parts: seq<string>, ns: seq<string>): nat
    decreases |parts| + |ns|
  {
    if parts == [] then if ns == [] then 1 else 0
    else if parts[0] == "**" then Ways(m, parts[1..], ns) + (if ns == [] then 0 else Ways(m, parts, ns[1..]))
    else if ns == [] || !m(parts[0], ns[0]) then 0
    else Ways(m, parts[1..], ns[1..])
  }

  lemma {:induction false} MatchingIsOneWay(m: Matcher, parts: seq<string>, ns: seq<string>)
    ensures Matches(m, parts, ns) <==> Ways(m, parts, ns) > 0
    decreases |parts| + |ns|
  {
    if parts != [] {
      if parts[0] == "**" {
        MatchingIsOneWay(m, parts[1..], ns);
        if ns != [] {
          MatchingIsOneWay(m, parts, ns[1..]);
        }
      } else if ns != [] {
        MatchingIsOneWay(m, parts[1..], ns[1..]);
      }
    }
  }

  /** The ways in which what is there is wanted. */
  function WaysAt(m: Matcher, parts: seq<string>, ns: seq<string>, place: Place): nat {
    if parts == [] then 0
    else if parts[|parts| - 1] == "**" then
      if place.AtDir? then Ways(m, parts, ns)
      else if place.AtFile? && ns != [] then Ways(m, parts, ns[..|ns| - 1])
      else 0
    else if ns == [] || place == Nowhere then 0
    else Ways(m, parts, ns)
  }

  lemma WantedInSomeWay(m: Matcher, parts: seq<string>, ns: seq<string>, place: Place)
    ensures WantedAt(m, parts, ns, place) <==> WaysAt(m, parts, ns, place) > 0
  {
    hide Matches, Ways;
    MatchingIsOneWay(m, parts, ns);
    if ns != [] {
      MatchingIsOneWay(m, parts, ns[..|ns| - 1]);
    }
  }

  lemma StarWays(m: Matcher, parts: seq<string>, ns: seq<string>, place: Place, entered: bool)
    requires |parts| > 1 && parts[0] == "**" && PlaceFits(place, ns, entered)
    ensures WaysAt(m, parts, ns, place)
            == WaysAt(m, parts[1..], ns, place) + if entered then WaysAt(m, parts, ns[1..], place) else 0
  {
    assert parts[1..][|parts| - 2] == parts[|parts| - 1];
    if |ns| == 1 {
      assert ns[1..] == [] && ns[..0] == [];
      NoNamesLeft(m, parts);
      MatchingIsOneWay(m, parts, []);
    } else if |ns| > 1 {
      assert ns[..|ns| - 1][1..] == ns[1..][..|ns| - 2];
    }
  }

  lemma NameWays(m: Matcher, parts: seq<string>, ns: seq<string>, place: Place, entered: bool)
    requires |parts| > 1 && parts[0] != "**" && PlaceFits(place, ns, entered)
    ensures WaysAt(m, parts, ns, place)
            == if ns != [] && m(parts[0], ns[0]) && entered then WaysAt(m, parts[1..], ns[1..], place) else 0
  {
    assert parts[1..][|parts| - 2] == parts[|parts| - 1];
    if |ns| == 1 {
      assert ns[1..] == [] && ns[..0] == [];
      NoNamesLeft(m, parts[1..]);
      MatchingIsOneWay(m, parts[1..], []);
    } else if |ns| > 1 {
      assert ns[..|ns| - 1][1..] == ns[1..][..|ns| - 2];
    }
  }

  lemma {:induction false} LastStarWays(m: Matcher, ns: seq<string>)
    ensures Ways(m, ["**"], ns) == 1
    decreases |ns|
  {
    assert ["**"][1..] == [];
    if ns != [] {
      LastStarWays(m, ns[1..]);
    }
  }

  lemma LastNameWays(m: Matcher, part: string, ns: seq<string>)
    requires part != "**"
    ensures Ways(m, [part], ns) == if |ns| == 1 && m(part, ns[0]) then 1 else 0
  {
    assert [part][1..] == [];
  }

  lemma NoParts(m: Matcher, ns: seq<string>, place: Place)
    ensures WaysAt(m, [], ns, place) == 0
  {
  }

  lemma OneStarWays(m: Matcher, parts: seq<string>, ns: seq<string>, place: Place)
    requires parts == ["**"]
    ensures WaysAt(m, parts, ns, place) == if place.AtDir? || (place.AtFile? && ns != []) then 1 else 0
  {
    LastStarWays(m, ns);
    if ns != [] {
      LastStarWays(m, ns[..|ns| - 1]);
    }
  }

  lemma OneNameWays(m: Matcher, parts: seq<string>, ns: seq<string>, place: Place)
    requires |parts| == 1 && parts[0] != "**"
    ensures WaysAt(m, parts, ns, place) == if |ns| == 1 && m(parts[0], ns[0]) && place != Nowhere then 1 else 0
  {
    assert parts == [parts[0]];
    LastNameWays(m, parts[0], ns);
  }

  /** How often y is yielded below one entry. */
  ghost function TimesBelow(g: Graph, m: Matcher, t: Target, path: seq<string>, parts: seq<string>, visited: set<Key>,
                             y: seq<string>): nat
    requires Sound(g) && (t.Dir? ==> t.id in g)
  {
    if !t.Dir? then 0
    else
      assert SoundDirectory(g, g[t.id]);
      if KeyOf(g, t.id) in visited then 0
      else multiset(Walk(g, m, t.id, path, parts, visited + {KeyOf(g, t.id)}))[y]
  }

  /** How often y is yielded at one entry. */
  ghost function TimesAt(g: Graph, m: Matcher, e: Entry, star: bool, path: seq<string>, parts: seq<string>,
                         visited: set<Key>, y: seq<string>): nat
    requires Sound(g) && (e.target.Dir? ==> e.target.id in g) && parts != []
  {
    var here := if y == path + [e.name] then 1 else 0;
    if star then
      (if e.target.File? && |parts| == 1 then here else 0)
      + TimesBelow(g, m, e.target, path + [e.name], parts, visited, y)
    else if !m(parts[0], e.name) then 0
    else if |parts| == 1 then here
    else TimesBelow(g, m, e.target, path + [e.name], parts[1..], visited, y)
  }

  /** How often StarEntries or NameEntries yields y: as often as the entry y goes through does. */
  ghost function TimesFrom(g: Graph, m: Matcher, es: seq<Entry>, star: bool, path: seq<string>, parts: seq<string>,
                           visited: set<Key>, y: seq<string>): nat
    requires Sound(g) && SoundEntries(g, es) && parts != []
  {
    if !(path < y) || Lookup(es, y[|path|]).None? then 0
    else TimesAt(g, m, Entry(y[|path|], Lookup(es, y[|path|]).value), star, path, parts, visited, y)
  }

  /** At an entry only paths through it are yielded. */
  lemma OwnPaths(g: Graph, m: Matcher, e: Entry, star: bool, path: seq<string>, parts: seq<string>,
                 visited: set<Key>, y: seq<string>)
    requires Sound(g) && (e.target.Dir? ==> e.target.id in g) && parts != []
    ensures TimesAt(g, m, e, star, path, parts, visited, y) > 0 ==> path < y && y[|path|] == e.name
  {
    hide Walk, Wanted;
    if e.target.Dir? {
      assert SoundDirectory(g, g[e.target.id]);
      var inner := visited + {KeyOf(g, e.target.id)};
      WalkExactly(g, m, e.target.id, path + [e.name], parts, inner, y);
      WalkExactly(g, m, e.target.id, path + [e.name], parts[1..], inner, y);
    }
  }

  lemma TimesFromFirst(g: Graph, m: Matcher, es: seq<Entry>, star: bool, path: seq<string>, parts: seq<string>,
                       visited: set<Key>, y: seq<string>)
    requires Sound(g) && SoundEntries(g, es) && DistinctNames(es) && parts != [] && es != []
    ensures SoundEntries(g, es[1..]) && DistinctNames(es[1..])
    ensures TimesFrom(g, m, es, star, path, parts, visited, y)
            == TimesAt(g, m, es[0], star, path, parts, visited, y)
               + TimesFrom(g, m, es[1..], star, path, parts, visited, y)
  {
    hide TimesAt;
    OwnPaths(g, m, es[0], star, path, parts, visited, y);
    NotAmongRest(es);
    assert es[0] == Entry(es[0].name, es[0].target);
  }

  lemma StarFirst(g: Graph, m: Matcher, es: seq<Entry>, path: seq<string>, parts: seq<string>, visited: set<Key>,
                 y: seq<string>)
    requires Sound(g) && SoundEntries(g, es) && parts != [] && es != []
    ensures multiset(StarEntries(g, m, es, path, parts, visited))[y]
            == TimesAt(g, m, es[0], true, path, parts, visited, y)
               + multiset(StarEntries(g, m, es[1..], path, parts, visited))[y]
  {
    hide Walk;
    if es[0].target.Dir? {
      assert SoundDirectory(g, g[es[0].target.id]);
    }
  }

  lemma {:induction false} StarEntriesTimes(g: Graph, m: Matcher, es: seq<Entry>, path: seq<string>,
                                            parts: seq<string>, visited: set<Key>, y: seq<string>)
    requires Sound(g) && SoundEntries(g, es) && DistinctNames(es) && parts != []
    ensures multiset(StarEntries(g, m, es, path, parts, visited))[y]
            == TimesFrom(g, m, es, true, path, parts, visited, y)
    decreases |es|
  {
    hide Walk, TimesFrom, TimesAt, StarEntries;
    if es == [] {
      NoEntries(g, m, true, path, parts, visited, y);
    } else {
      StarFirst(g, m, es, path, parts, visited, y);
      StarEntriesTimes(g, m, es[1..], path, parts, visited, y);
      TimesFromFirst(g, m, es, true, path, parts, visited, y);
    }
  }

  lemma NoEntries(g: Graph, m: Matcher, star: bool, path: seq<string>, parts: seq<string>, visited: set<Key>,
                  y: seq<string>)
    requires Sound(g) && parts != []
    ensures TimesFrom(g, m, [], star, path, parts, visited, y) == 0
    ensures StarEntries(g, m, [], path, parts, visited) == NameEntries(g, m, [], path, parts, visited) == []
  {
  }

  lemma NameFirst(g: Graph, m: Matcher, es: seq<Entry>, path: seq<string>, parts: seq<string>, visited: set<Key>,
                 y: seq<string>)
    requires Sound(g) && SoundEntries(g, es) && parts != [] && es != []
    ensures multiset(NameEntries(g, m, es, path, parts, visited))[y]
            == TimesAt(g, m, es[0], false, path, parts, visited, y)
               + multiset(NameEntries(g, m, es[1..], path, parts, visited))[y]
  {
    hide Walk;
    if es[0].target.Dir? {
      assert SoundDirectory(g, g[es[0].target.id]);
    }
  }

  lemma {:induction false} NameEntriesTimes(g: Graph, m: Matcher, es: seq<Entry>, path: seq<string>,
                                            parts: seq<string>, visited: set<Key>, y: seq<string>)
    requires Sound(g) && SoundEntries(g, es) && DistinctNames(es) && parts != []
    ensures multiset(NameEntries(g, m, es, path, parts, visited))[y]
            == TimesFrom(g, m, es, false, path, parts, visited, y)
    decreases |es|
  {
    hide Walk, TimesFrom, TimesAt, NameEntries;
    if es == [] {
      NoEntries(g, m, false, path, parts, visited, y);
    } else {
      NameFirst(g, m, es, path, parts, visited, y);
      NameEntriesTimes(g, m, es[1..], path, parts, visited, y);
      TimesFromFirst(g, m, es, false, path, parts, visited, y);
    }
  }

  /** Below the entry y goes through, y is yielded as often as the rest of it matches. */
  lemma ChildWays(g: Graph, m: Matcher, d: nat, path: seq<string>, parts: seq<string>, visited: set<Key>,
                  y: seq<string>)
    requires Sound(g) && d in g && path < y && Lookup(EntriesOf(g, d), y[|path|]).Some?
    ensures assert SoundDirectory(g, g[d]);
            var ns := y[|path|..];
            TimesBelow(g, m, Lookup(EntriesOf(g, d), ns[0]).value, path + [ns[0]], parts, visited, y)
            == if Enter(g, d, visited, ns[0]).Some? then WaysAt(m, parts, ns[1..], Resolve(g, d, visited, ns)) else 0
    decreases |parts|, |AllKeys(g) - visited|, 0, 0
  {
    hide Walk, WaysAt;
    assert SoundDirectory(g, g[d]);
    var ns := y[|path|..];
    var e := Enter(g, d, visited, ns[0]);
    FirstName(g, d, visited, ns);
    if e.Some? {
      FewerKeys(g, e.value.0, visited);
      WalkYieldsEachWay(g, m, e.value.0, path + [ns[0]], parts, e.value.1, y);
      assert path + [ns[0]] <= y && y[|path + [ns[0]]|..] == ns[1..];
    }
  }

  /** What the loop under `**` adds, and what the pattern says it should. */
  lemma StarAddsWays(g: Graph, m: Matcher, d: nat, path: seq<string>, parts: seq<string>, visited: set<Key>,
                     y: seq<string>)
    requires Sound(g) && d in g && parts != [] && parts[0] == "**" && path <= y
    ensures assert SoundDirectory(g, g[d]);
            var ns := y[|path|..];
            var place := Resolve(g, d, visited, ns);
            var none := if |parts| > 1 then WaysAt(m, parts[1..], ns, place) else if ns == [] then 1 else 0;
            WaysAt(m, parts, ns, place) == none + TimesFrom(g, m, EntriesOf(g, d), true, path, parts, visited, y)
    decreases |parts|, |AllKeys(g) - visited|, 0, 1
  {
    hide TimesBelow, WaysAt, Enter, Lookup;
    assert SoundDirectory(g, g[d]);
    var ns := y[|path|..];
    var place := Resolve(g, d, visited, ns);
    if ns != [] {
      FirstName(g, d, visited, ns);
      EnterLooksUp(g, d, visited, ns[0]);
      if Lookup(EntriesOf(g, d), ns[0]).Some? {
        ChildWays(g, m, d, path, parts, visited, y);
      }
      assert y == path + [ns[0]] <==> |ns| == 1;
    }
    if |parts| > 1 {
      StarWays(m, parts, ns, place, ns != [] && Enter(g, d, visited, ns[0]).Some?);
    } else {
      OneStarWays(m, parts, ns, place);
      if ns != [] {
        OneStarWays(m, parts, ns[1..], place);
      }
    }
  }

  lemma EnterLooksUp(g: Graph, d: nat, visited: set<Key>, name: string)
    requires Sound(g) && d in g
    ensures Enter(g, d, visited, name).Some? ==> Lookup(EntriesOf(g, d), name).Some?
                                                 && Lookup(EntriesOf(g, d), name).value.Dir?
  {
  }

  /** The same for the loop under a name. */
  lemma NameAddsWays(g: Graph, m: Matcher, d: nat, path: seq<string>, parts: seq<string>, visited: set<Key>,
                     y: seq<string>)
    requires Sound(g) && d in g && parts != [] && parts[0] != "**" && path <= y
    ensures assert SoundDirectory(g, g[d]);
            var ns := y[|path|..];
            WaysAt(m, parts, ns, Resolve(g, d, visited, ns))
            == TimesFrom(g, m, EntriesOf(g, d), false, path, parts, visited, y)
    decreases |parts|, |AllKeys(g) - visited|, 0, 1
  {
    hide TimesBelow, WaysAt, Enter, Lookup;
    assert SoundDirectory(g, g[d]);
    var ns := y[|path|..];
    var place := Resolve(g, d, visited, ns);
    if ns != [] {
      FirstName(g, d, visited, ns);
      EnterLooksUp(g, d, visited, ns[0]);
      if Lookup(EntriesOf(g, d), ns[0]).Some? && |parts| > 1 {
        ChildWays(g, m, d, path, parts[1..], visited, y);
      }
      assert y == path + [ns[0]] <==> |ns| == 1;
    }
    if |parts| > 1 {
      NameWays(m, parts, ns, place, ns != [] && Enter(g, d, visited, ns[0]).Some?);
    } else {
      OneNameWays(m, parts, ns, place);
    }
  }

  /** The walk yields a path as often as there are ways to match it: as its names can be shared out
      among the parts of the pattern, if they lead to something wanted, and never otherwise. */
  lemma {:induction false} WalkYieldsEachWay(g: Graph, m: Matcher, d: nat, path: seq<string>, parts: seq<string>,
                                             visited: set<Key>, y: seq<string>)
    requires Sound(g) && d in g
    ensures multiset(Walk(g, m, d, path, parts, visited))[y]
            == if path <= y then WaysAt(m, parts, y[|path|..], Resolve(g, d, visited, y[|path|..])) else 0
    decreases |parts|, |AllKeys(g) - visited|, 1, 0
  {
    hide TimesFrom, WaysAt, Wanted, Resolve, Lookup;
    assert SoundDirectory(g, g[d]);
    var es := EntriesOf(g, d);
    if !(path <= y) {
      WalkExactly(g, m, d, path, parts, visited, y);
    } else if parts == [] {
      NoParts(m, y[|path|..], Resolve(g, d, visited, y[|path|..]));
    } else if parts[0] == "**" {
      StarEntriesTimes(g, m, es, path, parts, visited, y);
      StarAddsWays(g, m, d, path, parts, visited, y);
      if |parts| > 1 {
        WalkYieldsEachWay(g, m, d, path, parts[1..], visited, y);
      } else {
        assert y == path <==> y[|path|..] == [];
      }
    } else {
      NameEntriesTimes(g, m, es, path, parts, visited, y);
      NameAddsWays(g, m, d, path, parts, visited, y);
    }
  }

  predicate NoRepeats<T(==)>(s: seq<T>) {
    forall i, j :: 0 <= i < j < |s| ==> s[i] != s[j]
  }

  lemma {:induction false} NoRepeatsMeansOnce<T>(s: seq<T>)
    ensures NoRepeats(s) <==> forall x :: multiset(s)[x] <= 1
  {
    if s != [] {
      var rest := s[1..];
      NoRepeatsMeansOnce(rest);
      assert s == [s[0]] + rest;
      assert s[0] in rest <==> multiset(rest)[s[0]] > 0;
      if NoRepeats(s) {
        assert forall k :: 0 <= k < |rest| ==> rest[k] == s[k + 1];
      } else if NoRepeats(rest) {
        var i, j :| 0 <= i < j < |s| && s[i] == s[j];
        assert i == 0 && rest[j - 1] == s[0];
        assert multiset(s)[s[0]] > 1;
      } else {
        var x :| multiset(rest)[x] > 1;
        assert multiset(s)[x] > 1;
      }
    }
  }

  function Stars(parts: seq<string>): nat {
    if parts == [] then 0 else (if parts[0] == "**" then 1 else 0) + Stars(parts[1..])
  }

  /** How long the lists of names a pattern matches are. */
  lemma {:induction false} MatchLength(m: Matcher, parts: seq<string>, ns: seq<string>)
    requires Matches(m, parts, ns)
    ensures |ns| >= |parts| - Stars(parts)
    ensures Stars(parts) == 0 ==> |ns| == |parts|
    decreases |parts| + |ns|
  {
    if parts != [] {
      if parts[0] != "**" {
        MatchLength(m, parts[1..], ns[1..]);
      } else if Matches(m, parts[1..], ns) {
        MatchLength(m, parts[1..], ns);
      } else {
        MatchLength(m, parts, ns[1..]);
      }
    }
  }

  /** With at most one `**` there is at most one way. */
  lemma {:induction false} OneStarOneWay(m: Matcher, parts: seq<string>, ns: seq<string>)
    requires Stars(parts) <= 1
    ensures Ways(m, parts, ns) <= 1
    decreases |parts| + |ns|
  {
    if parts != [] {
      if parts[0] == "**" {
        OneStarOneWay(m, parts[1..], ns);
        MatchingIsOneWay(m, parts[1..], ns);
        if ns != [] {
          OneStarOneWay(m, parts, ns[1..]);
          MatchingIsOneWay(m, parts, ns[1..]);
          if Matches(m, parts[1..], ns) && Matches(m, parts, ns[1..]) {
            MatchLength(m, parts[1..], ns);
            MatchLength(m, parts, ns[1..]);
          }
        }
      } else if ns != [] {
        OneStarOneWay(m, parts[1..], ns[1..]);
      }
    }
  }

  /** A pattern with at most one `**` yields no path twice. */
  lemma WalkYieldsOnce(g: Graph, m: Matcher, d: nat, path: seq<string>, parts: seq<string>, visited: set<Key>)
    requires Sound(g) && d in g && Stars(parts) <= 1
    ensures NoRepeats(Walk(g, m, d, path, parts, visited))
  {
    hide Walk, Ways;
    forall y: seq<string>
      ensures multiset(Walk(g, m, d, path, parts, visited))[y] <= 1
    {
      WalkYieldsEachWay(g, m, d, path, parts, visited, y);
      if path <= y {
        var ns := y[|path|..];
        OneStarOneWay(m, parts, ns);
        if ns != [] {
          OneStarOneWay(m, parts, ns[..|ns| - 1]);
        }
      }
    }
    NoRepeatsMeansOnce(Walk(g, m, d, path, parts, visited));
  }

  // ---- in which order --------------------------------------------------------

  lemma FirstInOrder(first: seq<seq<string>>, x: seq<seq<string>>, y: seq<seq<string>>)
    ensures first + (x + y) == (first + x) + y
  {
  }

  /** The paths come in the order of the listing: what the first entries give, then what the rest do. */
  lemma {:induction false} StarEntriesInOrder(g: Graph, m: Matcher, a: seq<Entry>, b: seq<Entry>, path: seq<string>,
                                              parts: seq<string>, visited: set<Key>)
    requires Sound(g) && SoundEntries(g, a) && SoundEntries(g, b) && SoundEntries(g, a + b) && parts != []
    ensures StarEntries(g, m, a + b, path, parts, visited)
            == StarEntries(g, m, a, path, parts, visited) + StarEntries(g, m, b, path, parts, visited)
    decreases |a|
  {
    if a == [] {
      assert a + b == b;
    } else {
      hide Walk;
      assert (a + b)[0] == a[0] && (a + b)[1..] == a[1..] + b;
      StarEntriesInOrder(g, m, a[1..], b, path, parts, visited);
      var rest := StarEntries(g, m, a[1..], path, parts, visited);
      var first := StarEntries(g, m, a, path, parts, visited);
      FirstInOrder(first[..|first| - |rest|], rest, StarEntries(g, m, b, path, parts, visited));
    }
  }

  lemma {:induction false} NameEntriesInOrder(g: Graph, m: Matcher, a: seq<Entry>, b: seq<Entry>, path: seq<string>,
                                              parts: seq<string>, visited: set<Key>)
    requires Sound(g) && SoundEntries(g, a) && SoundEntries(g, b) && SoundEntries(g, a + b) && parts != []
    ensures NameEntries(g, m, a + b, path, parts, visited)
            == NameEntries(g, m, a, path, parts, visited) + NameEntries(g, m, b, path, parts, visited)
    decreases |a|
  {
    if a == [] {
      assert a + b == b;
    } else {
      hide Walk;
      assert (a + b)[0] == a[0] && (a + b)[1..] == a[1..] + b;
      NameEntriesInOrder(g, m, a[1..], b, path, parts, visited);
      var rest := NameEntries(g, m, a[1..], path, parts, visited);
      var first := NameEntries(g, m, a, path, parts, visited);
      FirstInOrder(first[..|first| - |rest|], rest, NameEntries(g, m, b, path, parts, visited));
    }
  }

  /** And what a directory gives itself comes before what is below it: with `**` last, the directory;
      with more parts, what matches with the `**` left out. */
  lemma ShortestFirst(g: Graph, m: Matcher, d: nat, path: seq<string>, parts: seq<string>, visited: set<Key>)
    requires Sound(g) && d in g && parts != [] && parts[0] == "**"
    ensures |parts| == 1 ==> [path] <= Walk(g, m, d, path, parts, visited)
    ensures |parts| > 1 ==> Walk(g, m, d, path, parts[1..], visited) <= Walk(g, m, d, path, parts, visited)
  {
  }
}
