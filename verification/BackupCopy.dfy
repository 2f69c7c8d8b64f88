// packages/minidb/src/backup.ts: the copy into a temporary folder, the manifest written last, and
// the swap into place. Any operation may fail, and the process may stop after any of them: the
// disk keeps the history of all the states it was in.
module BackupCopy {
  import opened Bytes

  /** What copying an entry of the database directory meets: a file; a tree, and the files the copy
      finds in it; or a tree that loses a file while it is copied, its clean-up running beside. */
  datatype Original = File(content: bytes) | Generations(files: map<string, bytes>) | Vanishing

  type Source = map<string, Original>

  /** Torn: its copy is under way or was cut off. Only plain files are synced one by one. */
  datatype Node = Plain(content: bytes, synced: bool) | Tree(files: map<string, bytes>) | Torn

  datatype Manifest = Absent | HalfWritten | Listing(names: seq<string>, synced: bool)

  datatype Folder = Folder(nodes: map<string, Node>, manifest: Manifest)

  /** The folders side by side with the destination, by name. */
  type Parent = map<string, Folder>

  const EMPTY := Folder(map[], Absent)

  function Copied(o: Original): Node {
    match o
    case File(content) => Plain(content, false)
    case Generations(files) => Tree(files)
    case Vanishing => Torn
  }

  function Durable(o: Original): Node {
    match o
    case File(content) => Plain(content, true)
    case Generations(files) => Tree(files)
    case Vanishing => Torn
  }

  /** fsync of one entry. */
  function Synced(n: Node): Node {
    if n.Plain? then n.(synced := true) else n
  }

  /** The entry is there to the end of its copy. */
  predicate Stays(source: Source, name: string) {
    name in source && !source[name].Vanishing?
  }

  /** What is there and not of the names was left by trees that vanished under their copy. */
  ghost predicate OnlyLeftovers(nodes: map<string, Node>, source: Source, names: seq<string>) {
    forall n :: n in nodes && n !in names ==> n in source && source[n].Vanishing? && nodes[n].Torn?
  }

  /** The nodes are the copies of the names, and what vanishing trees left. */
  ghost predicate AllCopied(nodes: map<string, Node>, source: Source, names: seq<string>) {
    && (forall n :: n in names ==> Stays(source, n) && n in nodes && nodes[n] == Copied(source[n]))
    && OnlyLeftovers(nodes, source, names)
  }

  /** And the first k names are synced. */
  ghost predicate AllSynced(nodes: map<string, Node>, source: Source, names: seq<string>, k: nat)
    requires k <= |names|
  {
    && (forall n :: n in names ==> Stays(source, n) && n in nodes
                                   && (nodes[n] == Copied(source[n]) || nodes[n] == Durable(source[n])))
    && (forall n :: n in names[..k] ==> nodes[n] == Durable(source[n]))
    && OnlyLeftovers(nodes, source, names)
  }

  /** The listed names that were there to the end of their copy. */
  function Present(source: Source, listed: seq<string>): seq<string> {
    if listed == [] then []
    else
      var n := listed[|listed| - 1];
      Present(source, listed[..|listed| - 1]) + (if Stays(source, n) then [n] else [])
  }

  ghost predicate AllDurable(nodes: map<string, Node>, source: Source, names: seq<string>) {
    forall n :: n in names ==> Stays(source, n) && n in nodes && nodes[n] == Durable(source[n])
  }

  /** A whole backup: each file listed is there and synced, and so is the list. Beside them there is
      only what vanishing trees left. */
  ghost predicate Complete(f: Folder, source: Source, names: seq<string>) {
    && f.manifest == Listing(names, true)
    && AllDurable(f.nodes, source, names)
    && OnlyLeftovers(f.nodes, source, names)
  }

  /** Nothing else is there if no tree vanished; and anything else is a part of one that did, which
      the manifest does not list. */
  lemma NothingElseUnlessVanished(f: Folder, source: Source, names: seq<string>)
    requires Complete(f, source, names)
    ensures (forall n :: n in source ==> !source[n].Vanishing?) ==> f.nodes.Keys == set n | n in names
    ensures forall n :: n in f.nodes && n in source && source[n].Vanishing? ==> n !in names && f.nodes[n] == Torn
  {
    if forall n :: n in source ==> !source[n].Vanishing? {
      forall n
        ensures n in f.nodes.Keys <==> n in names
      {
      }
    }
    forall n | n in f.nodes && n in source && source[n].Vanishing?
      ensures n !in names
    {
      assert n in names ==> Stays(source, n);
    }
  }

  /** Any trace of a manifest means everything it is to list is copied and synced. */
  ghost predicate Honest(f: Folder, source: Source, names: seq<string>) {
    !f.manifest.Absent? ==> AllDurable(f.nodes, source, names)
  }

  // ---- names -----------------------------------------------------------------

  function TmpName(base: string, suffix: string): string {
    "." + base + ".backup-tmp-" + suffix
  }

  function AsideName(base: string, suffix: string): string {
    "." + base + ".backup-old-" + suffix
  }

  predicate Orphan(base: string, name: string) {
    "." + base + ".backup-tmp-" <= name || "." + base + ".backup-old-" <= name
  }

  /** The two working names are swept by the next run, the destination never is. */
  lemma NamesApart(base: string, s: string, t: string)
    ensures Orphan(base, TmpName(base, s)) && Orphan(base, AsideName(base, t)) && !Orphan(base, base)
    ensures TmpName(base, s) != AsideName(base, t)
  {
    assert TmpName(base, s)[|base| + 9] == 't';
    assert AsideName(base, t)[|base| + 9] == 'o';
  }

  /** What the sweep leaves. */
  function Swept(base: string, s: Parent): Parent {
    map n | n in s && !Orphan(base, n) :: s[n]
  }

  // ---- what no crash may break -------------------------------------------------

  /** The previous backup is where it was or set aside, or the new one is in its place. */
  ghost predicate Kept(s: Parent, base: string, aside: string, previous: Folder, source: Source, names: seq<string>) {
    || (base in s && s[base] == previous)
    || (aside in s && s[aside] == previous)
    || (base in s && Complete(s[base], source, names))
  }

  /** The destination holds nothing but what it held before, or the whole new backup. */
  ghost predicate NeverHalf(s: Parent, was: Parent, base: string, source: Source, names: seq<string>) {
    base in s ==> (base in was && s[base] == was[base]) || Complete(s[base], source, names)
  }

  ghost predicate Safe(s: Parent, was: Parent, base: string, aside: string, source: Source, names: seq<string>) {
    && NeverHalf(s, was, base, source, names)
    && (base in was ==> Kept(s, base, aside, was[base], source, names))
    && forall n :: n in was && n != base && !Orphan(base, n) ==> n in s && s[n] == was[n]
  }

  /** States that differ only under one name. */
  ghost predicate OnlyAt(before: seq<Parent>, after: seq<Parent>, was: Parent, name: string) {
    before <= after && forall i :: |before| <= i < |after| ==> after[i] - {name} == was - {name}
  }

  ghost predicate AllSafe(before: seq<Parent>, after: seq<Parent>, was: Parent, base: string, aside: string,
                          source: Source, names: seq<string>) {
    before <= after && forall i :: |before| <= i < |after| ==> Safe(after[i], was, base, aside, source, names)
  }

  /** While the temporary folder is filled. */
  ghost predicate Filling(before: seq<Parent>, after: seq<Parent>, was: Parent, tmp: string, source: Source,
                          names: seq<string>) {
    && OnlyAt(before, after, was, tmp)
    && forall i :: |before| <= i < |after| && tmp in after[i] ==> Honest(after[i][tmp], source, names)
  }

  /** States in which a trace of the manifest in the temporary folder means its files are durable. */
  ghost predicate AllHonest(before: seq<Parent>, after: seq<Parent>, tmp: string, source: Source, names: seq<string>) {
    before <= after && forall i :: |before| <= i < |after| && tmp in after[i] ==> Honest(after[i][tmp], source, names)
  }

  lemma HonestJoin(h0: seq<Parent>, h1: seq<Parent>, h2: seq<Parent>, tmp: string, source: Source, names: seq<string>)
    requires AllHonest(h0, h1, tmp, source, names) && AllHonest(h1, h2, tmp, source, names)
    ensures AllHonest(h0, h2, tmp, source, names)
  {
    forall i | |h0| <= i < |h2| && tmp in h2[i]
      ensures Honest(h2[i][tmp], source, names)
    {
      assert i < |h1| ==> h2[i] == h1[i];
    }
  }

  lemma FillingIsHonest(before: seq<Parent>, after: seq<Parent>, was: Parent, tmp: string, source: Source,
                        names: seq<string>)
    requires Filling(before, after, was, tmp, source, names)
    ensures AllHonest(before, after, tmp, source, names)
  {
  }

  /** While only another name changes, an absent temporary folder stays absent. */
  lemma AbsentIsHonest(before: seq<Parent>, after: seq<Parent>, was: Parent, name: string, tmp: string, source: Source,
                       names: seq<string>)
    requires OnlyAt(before, after, was, name) && tmp !in was && tmp != name
    ensures AllHonest(before, after, tmp, source, names)
  {
    forall i | |before| <= i < |after|
      ensures tmp !in after[i]
    {
      var t := after[i];
      assert tmp in t <==> tmp in t - {name};
      assert t - {name} == was - {name} && tmp !in was - {name};
    }
  }

  lemma OnlyAtSame(h0: seq<Parent>, h1: seq<Parent>, s: Parent, t: Parent, name: string)
    requires OnlyAt(h0, h1, s, name) && t - {name} == s - {name}
    ensures OnlyAt(h0, h1, t, name)
  {
  }

  lemma OnlyAtMore(h0: seq<Parent>, h1: seq<Parent>, s: Parent, was: Parent, name: string)
    requires OnlyAt(h0, h1, was, name) && s - {name} == was - {name}
    ensures OnlyAt(h0, h1 + [s], was, name)
  {
  }

  lemma FillingMore(before: seq<Parent>, after: seq<Parent>, s: Parent, was: Parent, tmp: string, source: Source,
                    names: seq<string>)
    requires Filling(before, after, was, tmp, source, names)
    requires s - {tmp} == was - {tmp} && (tmp in s ==> Honest(s[tmp], source, names))
    ensures Filling(before, after + [s], was, tmp, source, names)
  {
  }

  lemma NoneDishonest(h: seq<Parent>, s: Parent, tmp: string, source: Source, names: seq<string>)
    ensures AllHonest(h, h, tmp, source, names) && OnlyAt(h, h, s, tmp)
  {
  }

  lemma EmptyIsHonest(h: seq<Parent>, s: Parent, tmp: string, source: Source, names: seq<string>)
    requires tmp in s && s[tmp] == EMPTY
    ensures AllHonest(h, h + [s], tmp, source, names)
  {
  }

  lemma CompleteIsHonest(f: Folder, source: Source, names: seq<string>)
    requires Complete(f, source, names)
    ensures Honest(f, source, names)
  {
  }

  lemma NothingYet(h: seq<Parent>, was: Parent, tmp: string, source: Source, names: seq<string>)
    ensures Filling(h, h, was, tmp, source, names)
    ensures AllCopied(map[], source, [])
  {
  }

  lemma FillingJoins(h0: seq<Parent>, h1: seq<Parent>, h2: seq<Parent>, s0: Parent, s1: Parent, tmp: string,
                     source: Source, names: seq<string>)
    requires Filling(h0, h1, s0, tmp, source, names) && Filling(h1, h2, s1, tmp, source, names)
    requires s1 - {tmp} == s0 - {tmp}
    ensures Filling(h0, h2, s0, tmp, source, names)
  {
    forall i | |h0| <= i < |h2|
      ensures h2[i] - {tmp} == s0 - {tmp} && (tmp in h2[i] ==> Honest(h2[i][tmp], source, names))
    {
      if i < |h1| {
        assert h2[i] == h1[i];
      }
    }
  }

  lemma OneMoreCopied(nodes: map<string, Node>, source: Source, names: seq<string>, name: string)
    requires AllCopied(nodes, source, names) && Stays(source, name)
    ensures AllCopied(nodes[name := Copied(source[name])], source, names + [name])
  {
  }

  lemma OneMoreLeft(nodes: map<string, Node>, source: Source, names: seq<string>, name: string)
    requires AllCopied(nodes, source, names) && name in source && source[name].Vanishing?
    ensures AllCopied(nodes[name := Torn], source, names)
  {
  }

  lemma OneMoreSynced(nodes: map<string, Node>, source: Source, names: seq<string>, i: nat)
    requires i < |names| && AllSynced(nodes, source, names, i)
    ensures AllSynced(nodes[names[i] := Synced(nodes[names[i]])], source, names, i + 1)
  {
    assert names[..i + 1] == names[..i] + [names[i]];
  }

  // ---- states that differ in working names alone -------------------------------

  predicate SameButOrphans(s: Parent, was: Parent, base: string) {
    Swept(base, s) == Swept(base, was)
  }

  ghost predicate OnlyOrphans(before: seq<Parent>, after: seq<Parent>, was: Parent, base: string) {
    before <= after && forall i :: |before| <= i < |after| ==> SameButOrphans(after[i], was, base)
  }

  lemma SameAt(s: Parent, was: Parent, name: string, base: string)
    requires Orphan(base, name) && s - {name} == was - {name}
    ensures SameButOrphans(s, was, base)
  {
    forall n | n in s + was && !Orphan(base, n)
      ensures n in s && n in was && s[n] == was[n]
    {
      assert n in s ==> n in s - {name};
      assert n in was ==> n in was - {name};
    }
  }

  lemma OrphansJoin(h0: seq<Parent>, h1: seq<Parent>, h2: seq<Parent>, s0: Parent, s1: Parent, name: string,
                    base: string)
    requires OnlyOrphans(h0, h1, s0, base) && OnlyAt(h1, h2, s1, name) && SameButOrphans(s1, s0, base)
             && Orphan(base, name)
    ensures OnlyOrphans(h0, h2, s0, base)
  {
    forall i | |h0| <= i < |h2|
      ensures SameButOrphans(h2[i], s0, base)
    {
      if i < |h1| {
        assert h2[i] == h1[i];
      } else {
        SameAt(h2[i], s1, name, base);
      }
    }
  }

  /** Once the new backup is in place, what happens to the aside breaks nothing. */
  lemma PlacedIsSafe(s: Parent, placed: Parent, was: Parent, base: string, aside: string, source: Source,
                     names: seq<string>)
    requires base in placed && Complete(placed[base], source, names) && Safe(placed, was, base, aside, source, names)
    requires s - {aside} == placed - {aside} && Orphan(base, aside) && aside != base
    ensures Safe(s, was, base, aside, source, names) && base in s && s[base] == placed[base]
  {
    assert base in s - {aside};
    forall n | n in was && n != base && !Orphan(base, n)
      ensures n in s && s[n] == was[n]
    {
      assert n in placed - {aside} && (placed - {aside})[n] == was[n];
      assert n in s - {aside};
    }
  }

  lemma OrphanStateIsSafe(s: Parent, was: Parent, base: string, aside: string, source: Source, names: seq<string>)
    requires SameButOrphans(s, was, base) && !Orphan(base, base)
    ensures Safe(s, was, base, aside, source, names)
  {
    forall n | n in was && !Orphan(base, n)
      ensures n in s && s[n] == was[n]
    {
      assert n in Swept(base, was);
    }
    assert base in s ==> base in Swept(base, s);
  }

  /** The temporary folder matters to nothing but itself. */
  lemma TmpIsAlone(s: Parent, t: Parent, was: Parent, base: string, tmp: string, aside: string, source: Source,
                   names: seq<string>)
    requires Safe(s, was, base, aside, source, names) && t - {tmp} == s - {tmp}
    requires Orphan(base, tmp) && tmp != aside && !Orphan(base, base)
    ensures Safe(t, was, base, aside, source, names)
  {
    forall n | n != tmp
      ensures (n in s <==> n in t) && (n in s ==> s[n] == t[n])
    {
      assert n in s <==> n in s - {tmp};
      assert n in t <==> n in t - {tmp};
    }
  }

  /** History from a state on, touched under the temporary name alone. */
  lemma TmpHistory(h0: seq<Parent>, h1: seq<Parent>, h2: seq<Parent>, s: Parent, was: Parent, base: string, tmp: string,
                   aside: string, source: Source, names: seq<string>)
    requires AllSafe(h0, h1, was, base, aside, source, names) && OnlyAt(h1, h2, s, tmp)
    requires Safe(s, was, base, aside, source, names) && Orphan(base, tmp) && tmp != aside && !Orphan(base, base)
    ensures AllSafe(h0, h2, was, base, aside, source, names)
  {
    forall i | |h1| <= i < |h2|
      ensures Safe(h2[i], was, base, aside, source, names)
    {
      TmpIsAlone(s, h2[i], was, base, tmp, aside, source, names);
    }
    SafeJoin(h0, h1, h2, was, base, aside, source, names);
  }

  lemma OrphanHistory(h0: seq<Parent>, h1: seq<Parent>, was: Parent, base: string, aside: string, source: Source,
                      names: seq<string>)
    requires OnlyOrphans(h0, h1, was, base) && !Orphan(base, base)
    ensures AllSafe(h0, h1, was, base, aside, source, names)
  {
    forall i | |h0| <= i < |h1|
      ensures Safe(h1[i], was, base, aside, source, names)
    {
      OrphanStateIsSafe(h1[i], was, base, aside, source, names);
    }
  }

  /** The state of the disk when a swap begins is safe relative to it; so it is relative to the
      start, which it equals but for orphans. */
  lemma SafeSince(s: Parent, since: Parent, was: Parent, base: string, aside: string, source: Source,
                  names: seq<string>)
    requires Safe(s, since, base, aside, source, names) && SameButOrphans(since, was, base) && !Orphan(base, base)
    ensures Safe(s, was, base, aside, source, names)
  {
    OrphanStateIsSafe(since, was, base, aside, source, names);
    OrphanStateIsSafe(was, since, base, aside, source, names);
    assert base in since <==> base in was by {
      assert base in since <==> base in Swept(base, since);
      assert base in was <==> base in Swept(base, was);
    }
    assert base in was ==> since[base] == Swept(base, was)[base];
    forall n | n in was && n != base && !Orphan(base, n)
      ensures n in s && s[n] == was[n]
    {
      assert n in Swept(base, was) && n in Swept(base, since);
    }
  }

  lemma SafeHistorySince(h0: seq<Parent>, h1: seq<Parent>, since: Parent, was: Parent, base: string, aside: string,
                         source: Source, names: seq<string>)
    requires AllSafe(h0, h1, since, base, aside, source, names) && SameButOrphans(since, was, base)
             && !Orphan(base, base)
    ensures AllSafe(h0, h1, was, base, aside, source, names)
  {
    forall i | |h0| <= i < |h1|
      ensures Safe(h1[i], was, base, aside, source, names)
    {
      SafeSince(h1[i], since, was, base, aside, source, names);
    }
  }

  lemma NoStates(h: seq<Parent>, was: Parent, base: string, aside: string, source: Source, names: seq<string>)
    ensures AllSafe(h, h, was, base, aside, source, names)
  {
  }

  lemma SameTwice(s: Parent, t: Parent, u: Parent, base: string)
    requires SameButOrphans(s, t, base) && SameButOrphans(t, u, base)
    ensures SameButOrphans(s, u, base)
  {
  }

  /** Between the two renames. */
  ghost predicate SetAside(s: Parent, was: Parent, base: string, aside: string) {
    base in was && base !in s && aside in s && s[aside] == was[base]
  }

  lemma SetAsideSince(s: Parent, since: Parent, was: Parent, base: string, aside: string)
    requires SetAside(s, since, base, aside) && SameButOrphans(since, was, base) && !Orphan(base, base)
    ensures SetAside(s, was, base, aside)
  {
    assert base in Swept(base, since) && base in Swept(base, was);
    assert Swept(base, since)[base] == Swept(base, was)[base];
  }

  lemma TmpRemoved(s: Parent, ended: Parent, was: Parent, base: string, tmp: string, aside: string)
    requires s - {tmp} == ended - {tmp} && tmp != base && tmp != aside
    ensures base in s <==> base in ended
    ensures base in s ==> s[base] == ended[base]
    ensures SetAside(ended, was, base, aside) ==> SetAside(s, was, base, aside)
  {
    assert base in s <==> base in s - {tmp};
    assert base in ended <==> base in ended - {tmp};
    assert aside in s <==> aside in s - {tmp};
    assert aside in ended <==> aside in ended - {tmp};
  }

  /** Without the working names, only the destination is new. */
  lemma FinalState(ended: Parent, made: Parent, was: Parent, base: string, tmp: string, aside: string)
    requires made == Swept(base, was)[tmp := EMPTY] && base in ended && aside !in ended
    requires ended - {aside} == (made - {tmp})[base := ended[base]] - {aside}
    requires Orphan(base, tmp) && Orphan(base, aside) && !Orphan(base, base)
    ensures ended - {tmp} == Swept(base, was)[base := ended[base]]
  {
    var swept := Swept(base, was);
    assert tmp !in swept && aside !in swept;
    assert made - {tmp} == swept;
    assert ended - {aside} == ended && swept[base := ended[base]] - {aside} == swept[base := ended[base]];
    assert tmp !in ended;
  }

  lemma SafeAtFirst(was: Parent, base: string, aside: string, source: Source, names: seq<string>)
    ensures Safe(was, was, base, aside, source, names)
  {
  }

  lemma AsideIsSafe(was: Parent, base: string, aside: string, source: Source, names: seq<string>)
    requires base in was && Orphan(base, aside) && !Orphan(base, base)
    ensures Safe(was[aside := was[base]] - {base}, was, base, aside, source, names)
  {
  }

  lemma NewIsSafe(s: Parent, was: Parent, base: string, tmp: string, aside: string, source: Source, names: seq<string>)
    requires Orphan(base, tmp) && base in s && Complete(s[base], source, names)
    requires forall n :: n in was && n != base && !Orphan(base, n) ==> n in s && s[n] == was[n]
    ensures Safe(s, was, base, aside, source, names)
  {
  }

  lemma SafeJoin(h0: seq<Parent>, h1: seq<Parent>, h2: seq<Parent>, was: Parent, base: string, aside: string,
                 source: Source, names: seq<string>)
    requires AllSafe(h0, h1, was, base, aside, source, names) && AllSafe(h1, h2, was, base, aside, source, names)
    ensures AllSafe(h0, h2, was, base, aside, source, names)
  {
    forall i | |h0| <= i < |h2|
      ensures Safe(h2[i], was, base, aside, source, names)
    {
      assert i < |h1| ==> h2[i] == h1[i];
    }
  }

  datatype Outcome = Done | Missing | Failed

  /** How far a run came. */
  datatype Ending = Finished | NeverSwapped | SwapFailed | FailedAfterwards

  /** refuses says which operations fail, counted from the first; op is the next. */
  class Disk {
    const refuses: nat -> bool
    var op: nat
    var folders: Parent
    ghost var history: seq<Parent>

    constructor (folders: Parent, refuses: nat -> bool)
      ensures this.folders == folders && history == [folders] && this.refuses == refuses && op == 0
    {
      this.folders := folders;
      this.refuses := refuses;
      op := 0;
      history := [folders];
    }

    /** How many of the operations from one on up to another fail. */
    ghost function Refusals(from: nat, to: nat): nat
      decreases to
    {
      if from >= to then 0 else Refusals(from, to - 1) + if refuses(to - 1) then 1 else 0
    }

    lemma {:induction false} RefusalsJoin(a: nat, b: nat, c: nat)
      requires a <= b <= c
      ensures Refusals(a, c) == Refusals(a, b) + Refusals(b, c)
      decreases c
    {
      if b < c {
        RefusalsJoin(a, b, c - 1);
      }
    }

    lemma RefusalsOfFour(a: nat)
      ensures Refusals(a, a) == 0
      ensures Refusals(a, a + 1) == (if refuses(a) then 1 else 0)
      ensures Refusals(a, a + 2) == Refusals(a, a + 1) + (if refuses(a + 1) then 1 else 0)
      ensures Refusals(a, a + 3) == Refusals(a, a + 2) + (if refuses(a + 2) then 1 else 0)
      ensures Refusals(a, a + 4) == Refusals(a, a + 3) + (if refuses(a + 3) then 1 else 0)
    {
    }

    /** One operation, refused or not. */
    method Attempt() returns (ok: bool)
      modifies this`op
      ensures op == old(op) + 1 && ok == !refuses(old(op))
      ensures Refusals(old(op), op) == if ok then 0 else 1
    {
      ok := !refuses(op);
      op := op + 1;
    }

    method Put(name: string, f: Folder)
      modifies this`folders, this`history
      ensures folders == old(folders)[name := f] && history == old(history) + [folders]
    {
      folders := folders[name := f];
      history := history + [folders];
    }

    /** mkdir: refused if the name is taken. */
    method Make(name: string) returns (ok: bool)
      modifies this
      ensures op == old(op) + 1 && (ok <==> !refuses(old(op)) && name !in old(folders))
      ensures Refusals(old(op), op) == if refuses(old(op)) then 1 else 0
      ensures ok ==> folders == old(folders)[name := EMPTY] && history == old(history) + [folders]
      ensures !ok ==> folders == old(folders) && history == old(history)
    {
      ok := Attempt();
      ok := ok && name !in folders;
      if ok {
        Put(name, EMPTY);
      }
    }

    /** rename: all or nothing, and only onto a free name. */
    method Rename(src: string, dst: string) returns (r: Outcome)
      modifies this
      ensures op == old(op) + 1
      ensures r == if refuses(old(op)) || dst in old(folders) then Failed
                   else if src !in old(folders) then Missing else Done
      ensures r.Done? ==> folders == old(folders)[dst := old(folders)[src]] - {src}
                          && history == old(history) + [folders]
      ensures !r.Done? ==> folders == old(folders) && history == old(history)
    {
      var ok := Attempt();
      if !ok || dst in folders {
        return Failed;
      }
      if src !in folders {
        return Missing;
      }
      folders := folders[dst := folders[src]] - {src};
      history := history + [folders];
      r := Done;
    }

    /** One entry of a folder, and perhaps its manifest, goes. */
    method RemoveEntry(name: string)
      requires name in folders && folders[name].nodes != map[]
      modifies this`folders, this`history
      ensures folders.Keys == old(folders).Keys && folders - {name} == old(folders) - {name}
      ensures history == old(history) + [folders] && |folders[name].nodes| < |old(folders)[name].nodes|
    {
      var f := folders[name];
      var n :| n in f.nodes;
      assert (f.nodes - {n}).Keys == f.nodes.Keys - {n};
      var alsoManifest: bool := *;
      Put(name, Folder(f.nodes - {n}, if alsoManifest then Absent else f.manifest));
    }

    /** The entries of a folder go one by one; the removal may stop half way. */
    method Empty(name: string) returns (ok: bool)
      requires name in folders
      modifies this
      ensures OnlyAt(old(history), history, old(folders), name) && folders - {name} == old(folders) - {name}
      ensures folders.Keys == old(folders).Keys
      ensures op >= old(op) && Refusals(old(op), op) == if ok then 0 else 1
    {
      hide OnlyAt;
      NoneDishonest(history, folders, name, map[], []);
      ok := true;
      while folders[name].nodes != map[]
        invariant op >= old(op) && Refusals(old(op), op) == 0
        invariant OnlyAt(old(history), history, old(folders), name)
        invariant folders - {name} == old(folders) - {name} && folders.Keys == old(folders).Keys
        decreases |folders[name].nodes|
      {
        ok := Attempt();
        if !ok {
          return;
        }
        ghost var before := history;
        RemoveEntry(name);
        OnlyAtMore(old(history), before, folders, old(folders), name);
      }
      ok := true;
    }

    /** rm -r: nothing to do if nothing is there. */
    method Remove(name: string) returns (ok: bool)
      modifies this
      ensures OnlyAt(old(history), history, old(folders), name) && folders - {name} == old(folders) - {name}
      ensures ok ==> folders == old(folders) - {name}
      ensures folders.Keys <= old(folders).Keys
      ensures op >= old(op) && Refusals(old(op), op) == if ok then 0 else 1
      ensures name !in old(folders) ==> ok
    {
      hide OnlyAt;
      NoneDishonest(history, folders, name, map[], []);
      if name !in folders {
        assert folders - {name} == folders;
        return true;
      }
      ok := Empty(name);
      if ok {
        OnlyAtMore(old(history), history, folders - {name}, old(folders), name);
        folders := folders - {name};
        history := history + [folders];
      }
    }

    // ---- filling the temporary folder ------------------------------------------

    ghost predicate Has(tmp: string, f: Folder)
      reads this
    {
      tmp in folders && folders[tmp] == f
    }

    /** stat, then copy: Missing when the entry is gone before, which leaves nothing, or goes while it
        is copied, which leaves what was copied till then; a failed copy may leave a torn one too. */
    method CopyIfExists(source: Source, name: string, tmp: string, ghost names: seq<string>) returns (r: Outcome)
      requires tmp in folders && folders[tmp].manifest.Absent?
      modifies this
      ensures Filling(old(history), history, old(folders), tmp, source, names)
      ensures folders.Keys == old(folders).Keys && folders - {tmp} == old(folders) - {tmp}
      ensures r.Done? ==> Stays(source, name)
                          && var f := old(folders[tmp]);
                             Has(tmp, f.(nodes := f.nodes[name := Copied(source[name])]))
      ensures r.Missing? ==> !Stays(source, name)
      ensures r.Missing? && name !in source ==> folders == old(folders)
      ensures r.Missing? && name in source
              ==> var f := old(folders[tmp]); Has(tmp, f.(nodes := f.nodes[name := Torn]))
      ensures op >= old(op) && Refusals(old(op), op) == if r.Failed? then 1 else 0
      ensures !r.Failed? ==> (r.Done? <==> Stays(source, name))
    {
      var ok := Attempt();
      if !ok {
        return Failed;
      }
      if name !in source {
        return Missing;
      }
      var f := folders[tmp];
      Put(tmp, f.(nodes := f.nodes[name := Torn]));
      ok := Attempt();
      if !ok {
        return Failed;
      }
      if source[name].Vanishing? {
        return Missing;
      }
      Put(tmp, f.(nodes := f.nodes[name := Copied(source[name])]));
      r := Done;
    }

    /** open, fsync, close one entry; syncing a tree's folder leaves its files as they are. */
    method Sync(name: string, tmp: string, ghost source: Source, ghost names: seq<string>) returns (ok: bool)
      requires tmp in folders && name in folders[tmp].nodes && folders[tmp].manifest.Absent?
      modifies this
      ensures Filling(old(history), history, old(folders), tmp, source, names)
      ensures folders.Keys == old(folders).Keys && folders - {tmp} == old(folders) - {tmp}
      ensures ok ==> var f := old(folders[tmp]); Has(tmp, f.(nodes := f.nodes[name := Synced(f.nodes[name])]))
      ensures !ok ==> folders == old(folders)
      ensures op == old(op) + 1 && ok == !refuses(old(op))
    {
      ok := Attempt();
      if ok {
        var f := folders[tmp];
        Put(tmp, f.(nodes := f.nodes[name := Synced(f.nodes[name])]));
      }
    }

    /** writeFile, fsync of the manifest, fsync of the folder. */
    method WriteManifest(tmp: string, copied: seq<string>, ghost source: Source) returns (ok: bool)
      requires tmp in folders && folders[tmp].manifest.Absent? && AllDurable(folders[tmp].nodes, source, copied)
      modifies this
      ensures Filling(old(history), history, old(folders), tmp, source, copied)
      ensures folders - {tmp} == old(folders) - {tmp}
      ensures ok ==> Has(tmp, old(folders[tmp]).(manifest := Listing(copied, true)))
      ensures op >= old(op) && Refusals(old(op), op) == if ok then 0 else 1
    {
      hide Filling, AllDurable, Refusals;
      RefusalsOfFour(op);
      NothingYet(history, folders, tmp, source, copied);
      ok := Attempt();
      if !ok {
        return;
      }
      var f := folders[tmp];
      FillingMore(old(history), history, folders[tmp := f.(manifest := HalfWritten)], old(folders), tmp, source,
                  copied);
      Put(tmp, f.(manifest := HalfWritten));
      ok := Attempt();
      if !ok {
        return;
      }
      FillingMore(old(history), history, folders[tmp := f.(manifest := Listing(copied, false))], old(folders), tmp,
                  source, copied);
      Put(tmp, f.(manifest := Listing(copied, false)));
      ok := Attempt();
      if !ok {
        return;
      }
      FillingMore(old(history), history, folders[tmp := f.(manifest := Listing(copied, true))], old(folders), tmp,
                  source, copied);
      Put(tmp, f.(manifest := Listing(copied, true)));
      ok := Attempt();
    }

    method CopyAll(source: Source, listed: seq<string>, tmp: string, ghost names: seq<string>)
      returns (ok: bool, copied: seq<string>)
      requires Has(tmp, EMPTY)
      modifies this
      ensures Filling(old(history), history, old(folders), tmp, source, names)
      ensures folders - {tmp} == old(folders) - {tmp}
      ensures ok ==> copied == Present(source, listed) && tmp in folders && folders[tmp].manifest.Absent?
                     && AllCopied(folders[tmp].nodes, source, copied)
      ensures op >= old(op) && Refusals(old(op), op) == if ok then 0 else 1
    {
      hide Filling, AllCopied;
      copied := [];
      NothingYet(history, folders, tmp, source, names);
      for i := 0 to |listed|
        invariant tmp in folders && folders[tmp].manifest.Absent? && folders - {tmp} == old(folders) - {tmp}
        invariant Filling(old(history), history, old(folders), tmp, source, names)
        invariant copied == Present(source, listed[..i])
        invariant AllCopied(folders[tmp].nodes, source, copied)
        invariant op >= old(op) && Refusals(old(op), op) == 0
      {
        ghost var before, was, next := history, folders, op;
        var r := CopyIfExists(source, listed[i], tmp, names);
        RefusalsJoin(old(op), next, op);
        FillingJoins(old(history), before, history, old(folders), was, tmp, source, names);
        if r.Failed? {
          return false, copied;
        }
        assert listed[..i + 1][..i] == listed[..i];
        if r.Done? {
          OneMoreCopied(was[tmp].nodes, source, copied, listed[i]);
          copied := copied + [listed[i]];
        } else if listed[i] in source {
          OneMoreLeft(was[tmp].nodes, source, copied, listed[i]);
        }
      }
      assert listed[..|listed|] == listed;
      ok := true;
    }

    method SyncAll(source: Source, copied: seq<string>, tmp: string) returns (ok: bool)
      requires tmp in folders && folders[tmp].manifest.Absent? && AllCopied(folders[tmp].nodes, source, copied)
      modifies this
      ensures Filling(old(history), history, old(folders), tmp, source, copied)
      ensures folders - {tmp} == old(folders) - {tmp}
      ensures ok ==> tmp in folders && folders[tmp].manifest.Absent?
                     && AllSynced(folders[tmp].nodes, source, copied, |copied|)
      ensures op >= old(op) && Refusals(old(op), op) == if ok then 0 else 1
    {
      hide Filling;
      NothingYet(history, folders, tmp, source, copied);
      for i := 0 to |copied|
        invariant tmp in folders && folders[tmp].manifest.Absent? && folders - {tmp} == old(folders) - {tmp}
        invariant Filling(old(history), history, old(folders), tmp, source, copied)
        invariant AllSynced(folders[tmp].nodes, source, copied, i)
        invariant op >= old(op) && Refusals(old(op), op) == 0
      {
        ghost var before, was := history, folders;
        ok := Sync(copied[i], tmp, source, copied);
        FillingJoins(old(history), before, history, old(folders), was, tmp, source, copied);
        if !ok {
          return;
        }
        OneMoreSynced(was[tmp].nodes, source, copied, i);
      }
      ok := true;
    }

    /** Copies, then syncs, then writes the manifest. In every state on the way a trace of the
        manifest in the temporary folder means all it lists is durable. */
    method Fill(source: Source, listed: seq<string>, tmp: string) returns (ok: bool)
      requires Has(tmp, EMPTY)
      modifies this
      ensures Filling(old(history), history, old(folders), tmp, source, Present(source, listed))
      ensures folders - {tmp} == old(folders) - {tmp}
      ensures ok ==> tmp in folders && Complete(folders[tmp], source, Present(source, listed))
      ensures op >= old(op) && Refusals(old(op), op) == if ok then 0 else 1
    {
      hide Filling;
      ghost var names := Present(source, listed);
      var copied;
      ok, copied := CopyAll(source, listed, tmp, names);
      if !ok {
        return;
      }
      ghost var h1, f1, op1 := history, folders, op;
      ok := SyncAll(source, copied, tmp);
      RefusalsJoin(old(op), op1, op);
      FillingJoins(old(history), h1, history, old(folders), f1, tmp, source, names);
      if !ok {
        return;
      }
      ghost var h2, f2, op2 := history, folders, op;
      assert copied[..|copied|] == copied;
      ok := WriteManifest(tmp, copied, source);
      RefusalsJoin(old(op), op2, op);
      FillingJoins(old(history), h2, history, old(folders), f2, tmp, source, names);
    }

    // ---- the whole run -----------------------------------------------------------

    /** Removes what a crashed run left. */
    method Sweep(base: string) returns (ok: bool)
      modifies this
      ensures OnlyOrphans(old(history), history, old(folders), base) && SameButOrphans(folders, old(folders), base)
      ensures ok ==> folders == Swept(base, old(folders))
      ensures folders.Keys <= old(folders).Keys
      ensures op >= old(op) && Refusals(old(op), op) == if ok then 0 else 1
    {
      var todo := folders.Keys;
      while todo != {}
        invariant OnlyOrphans(old(history), history, old(folders), base) && SameButOrphans(folders, old(folders), base)
        invariant forall n :: n in folders && Orphan(base, n) ==> n in todo
        invariant folders.Keys <= old(folders).Keys
        invariant op >= old(op) && Refusals(old(op), op) == 0
        decreases |todo|
      {
        var name :| name in todo;
        todo := todo - {name};
        if Orphan(base, name) {
          ghost var before, was, next := history, folders, op;
          ok := Remove(name);
          RefusalsJoin(old(op), next, op);
          OrphansJoin(old(history), before, history, old(folders), was, name, base);
          SameAt(folders, was, name, base);
          if !ok {
            return;
          }
        }
      }
      assert folders == Swept(base, folders);
      ok := true;
    }

    /** The aside is removed and the parent synced, the new backup in place already. */
    method Settle(base: string, aside: string, source: Source, ghost names: seq<string>, ghost was: Parent)
      returns (ok: bool)
      requires base in folders && Complete(folders[base], source, names)
               && Safe(folders, was, base, aside, source, names)
      requires Orphan(base, aside) && aside != base
      modifies this
      ensures AllSafe(old(history), history, was, base, aside, source, names)
              && Safe(folders, was, base, aside, source, names)
      ensures base in folders && folders[base] == old(folders)[base]
      ensures folders - {aside} == old(folders) - {aside} && OnlyAt(old(history), history, old(folders), aside)
      ensures ok ==> aside !in folders
      ensures op >= old(op) && Refusals(old(op), op) == if ok then 0 else 1
    {
      hide Complete, Safe;
      ok := Remove(aside);
      forall i | |old(history)| <= i < |history|
        ensures Safe(history[i], was, base, aside, source, names)
      {
        PlacedIsSafe(history[i], old(folders), was, base, aside, source, names);
      }
      PlacedIsSafe(folders, old(folders), was, base, aside, source, names);
      if ok {
        ghost var next := op;
        ok := Attempt();
        RefusalsJoin(old(op), next, op);
      }
    }

    /** The previous backup aside, the new one into place, the previous one back if that fails. */
    method Exchange(base: string, tmp: string, aside: string, source: Source, ghost names: seq<string>)
      returns (ending: Ending)
      requires tmp in folders && aside !in folders && tmp != aside && Orphan(base, tmp) && Orphan(base, aside)
               && !Orphan(base, base)
      requires Complete(folders[tmp], source, names)
      modifies this
      ensures AllSafe(old(history), history, old(folders), base, aside, source, names)
      ensures Safe(folders, old(folders), base, aside, source, names)
      ensures AllHonest(old(history), history, tmp, source, names)
      ensures ending == if refuses(old(op)) then NeverSwapped else if refuses(old(op) + 1) then SwapFailed else Finished
      ensures ending.NeverSwapped? ==> folders == old(folders)
      ensures ending.SwapFailed? ==> folders == old(folders)
                                     || (refuses(old(op) + 2) && SetAside(folders, old(folders), base, aside))
      ensures op >= old(op) && (ending.Finished? <==> Refusals(old(op), op) == 0)
      ensures Refusals(old(op), op) <= 1 ==> folders == old(folders) || ending.Finished?
      ensures ending.Finished? ==> folders - {aside} == (old(folders) - {tmp})[base := old(folders)[tmp]] - {aside}
    {
      hide Complete, Safe, Orphan, Honest, Refusals;
      RefusalsOfFour(op);
      SafeAtFirst(folders, base, aside, source, names);
      CompleteIsHonest(folders[tmp], source, names);
      var r := Rename(base, aside);
      if r.Failed? {
        return NeverSwapped;
      }
      var asideUsed := r.Done?;
      if asideUsed {
        AsideIsSafe(old(folders), base, aside, source, names);
      }
      r := Rename(tmp, base);
      if !r.Done? {
        if asideUsed {
          r := Rename(aside, base);
          assert r.Done? ==> folders == old(folders);
        }
        return SwapFailed;
      }
      NewIsSafe(folders, old(folders), base, tmp, aside, source, names);
      ending := Finished;
    }

    /** The exchange, then the rest. */
    method SwapIn(base: string, tmp: string, aside: string, source: Source, ghost names: seq<string>)
      returns (ending: Ending)
      requires tmp in folders && aside !in folders && tmp != aside && Orphan(base, tmp) && Orphan(base, aside)
               && !Orphan(base, base)
      requires Complete(folders[tmp], source, names)
      modifies this
      ensures AllSafe(old(history), history, old(folders), base, aside, source, names)
      ensures Safe(folders, old(folders), base, aside, source, names)
      ensures AllHonest(old(history), history, tmp, source, names)
      ensures ending.NeverSwapped? ==> folders == old(folders)
      ensures ending.SwapFailed? ==> folders == old(folders) || SetAside(folders, old(folders), base, aside)
      ensures ending.FailedAfterwards? || ending.Finished?
              ==> folders - {aside} == (old(folders) - {tmp})[base := old(folders)[tmp]] - {aside}
      ensures ending.Finished? ==> aside !in folders
      ensures op >= old(op) && (ending.Finished? <==> Refusals(old(op), op) == 0)
      ensures Refusals(old(op), op) <= 1 && ending.SwapFailed? ==> folders == old(folders)
    {
      hide Complete, Safe, AllSafe, Orphan, AllHonest, OnlyAt;
      ending := Exchange(base, tmp, aside, source, names);
      if ending.Finished? {
        ghost var h, placed, next := history, folders, op;
        var want := (old(folders) - {tmp})[base := old(folders)[tmp]];
        assert base in want - {aside} && base in placed - {aside} && placed[base] == old(folders)[tmp];
        var ok := Settle(base, aside, source, names, old(folders));
        RefusalsJoin(old(op), next, op);
        SafeJoin(old(history), h, history, old(folders), base, aside, source, names);
        assert tmp !in placed by {
          assert tmp in placed ==> tmp in placed - {aside};
        }
        AbsentIsHonest(h, history, placed, aside, tmp, source, names);
        HonestJoin(old(history), h, history, tmp, source, names);
        if !ok {
          ending := FailedAfterwards;
        }
      }
    }

    /** mkdir, fill, swap: the body of the try. */
    method FillAndSwap(base: string, tmp: string, aside: string, source: Source, listed: seq<string>, ghost was: Parent)
      returns (ending: Ending)
      requires Has(tmp, EMPTY) && aside !in folders && SameButOrphans(folders, was, base)
      requires tmp != aside && Orphan(base, tmp) && Orphan(base, aside) && !Orphan(base, base)
      modifies this
      ensures AllSafe(old(history), history, was, base, aside, source, Present(source, listed))
      ensures Safe(folders, was, base, aside, source, Present(source, listed))
      ensures AllHonest(old(history), history, tmp, source, Present(source, listed))
      ensures ending.NeverSwapped? ==> SameButOrphans(folders, was, base)
      ensures ending.SwapFailed? ==> SameButOrphans(folders, was, base) || SetAside(folders, was, base, aside)
      ensures ending.Finished? || ending.FailedAfterwards?
              ==> base in folders && Complete(folders[base], source, Present(source, listed))
                  && folders - {aside} == (old(folders) - {tmp})[base := folders[base]] - {aside}
      ensures ending.Finished? ==> aside !in folders
      ensures op >= old(op) && (ending.Finished? <==> Refusals(old(op), op) == 0)
      ensures Refusals(old(op), op) <= 1 && ending.SwapFailed? ==> SameButOrphans(folders, was, base)
      ensures ending.Finished? || ending.FailedAfterwards? ==> tmp !in folders
    {
      hide Complete, Safe, AllSafe, Orphan, SameButOrphans, AllHonest;
      ghost var names := Present(source, listed);
      OrphanStateIsSafe(folders, was, base, aside, source, names);
      assert AllSafe(history, history, was, base, aside, source, names) by {
        NoStates(history, was, base, aside, source, names);
      }
      var ok := Fill(source, listed, tmp);
      FillingIsHonest(old(history), history, old(folders), tmp, source, names);
      TmpHistory(old(history), old(history), history, old(folders), was, base, tmp, aside, source, names);
      TmpIsAlone(old(folders), folders, was, base, tmp, aside, source, names);
      SameAt(folders, old(folders), tmp, base);
      SameTwice(folders, old(folders), was, base);
      if !ok {
        return NeverSwapped;
      }
      ghost var h, filled, next := history, folders, op;
      assert aside !in folders - {tmp};
      ending := SwapIn(base, tmp, aside, source, names);
      RefusalsJoin(old(op), next, op);
      SafeHistorySince(h, history, filled, was, base, aside, source, names);
      SafeJoin(old(history), h, history, was, base, aside, source, names);
      HonestJoin(old(history), h, history, tmp, source, names);
      SafeSince(folders, filled, was, base, aside, source, names);
      if ending.SwapFailed? && SetAside(folders, filled, base, aside) {
        SetAsideSince(folders, filled, was, base, aside);
      }
      if ending.Finished? || ending.FailedAfterwards? {
        var want := (filled - {tmp})[base := filled[tmp]];
        assert base in folders - {aside} && (folders - {aside})[base] == (want - {aside})[base];
        assert folders[base] == filled[tmp];
        assert tmp != base && tmp !in want - {aside};
        assert tmp in folders ==> tmp in folders - {aside};
      }
    }

    /** One run of copyBackupAtomic, any operation of which may fail. In every state on the way, and
        so wherever the process stops, the previous backup is at the destination or set aside, or the
        new one is complete in its place, and the destination is never half a backup. A run that
        fails before the swap leaves the destination as it was; one that reaches it leaves the new
        backup. cleaned is false when the last removal of the temporary folder failed. From `made` on,
        when the temporary folder exists, up to `removing`, when its last removal begins, any trace of
        a manifest in it means that every file it lists is copied and synced; a removal that is cut
        off may leave a manifest without its files under a working name, never at the destination. */
    method CopyBackupAtomic(base: string, tmpSuffix: string, asideSuffix: string, source: Source, listed: seq<string>)
      returns (ending: Ending, cleaned: bool, ghost made: seq<Parent>, ghost removing: seq<Parent>)
      modifies this
      ensures old(history) <= made <= removing <= history
      ensures AllHonest(made, removing, TmpName(base, tmpSuffix), source, Present(source, listed))
      ensures OnlyOrphans(old(history), made, old(folders), base)
      ensures OnlyAt(removing, history, folders, TmpName(base, tmpSuffix))
      ensures AllSafe(old(history), history, old(folders), base, AsideName(base, asideSuffix), source,
                      Present(source, listed))
      ensures Safe(folders, old(folders), base, AsideName(base, asideSuffix), source, Present(source, listed))
      ensures ending.NeverSwapped? ==> SameButOrphans(folders, old(folders), base)
      ensures ending.SwapFailed? ==> SameButOrphans(folders, old(folders), base)
                                     || SetAside(folders, old(folders), base, AsideName(base, asideSuffix))
      ensures ending.Finished? || ending.FailedAfterwards?
              ==> base in folders && Complete(folders[base], source, Present(source, listed))
      ensures cleaned && TmpName(base, tmpSuffix) !in old(folders) ==> TmpName(base, tmpSuffix) !in folders
      ensures ending.Finished? && cleaned ==> folders == Swept(base, old(folders))[base := folders[base]]
      ensures op >= old(op) && (ending.Finished? && cleaned <==> Refusals(old(op), op) == 0)
      ensures Refusals(old(op), op) <= 1
              ==> && cleaned
                  && (ending.NeverSwapped? || ending.SwapFailed? ==> SameButOrphans(folders, old(folders), base))
    {
      hide Complete, Safe, AllSafe, Orphan, SameButOrphans, Honest, AllHonest, OnlyAt, SetAside, Present, Refusals;
      var tmp, aside := TmpName(base, tmpSuffix), AsideName(base, asideSuffix);
      ghost var names := Present(source, listed);
      NamesApart(base, tmpSuffix, asideSuffix);
      ending, cleaned, made, removing := NeverSwapped, true, history, history;
      OrphanStateIsSafe(folders, folders, base, aside, source, names);
      NoStates(history, folders, base, aside, source, names);
      NoneDishonest(history, folders, tmp, source, names);
      SameAt(folders, folders, tmp, base);
      var ok := Attempt();
      if !ok {
        return;
      }
      ghost var op1 := op;
      ok := Sweep(base);
      RefusalsJoin(old(op), op1, op);
      made, removing := history, history;
      NoneDishonest(history, folders, tmp, source, names);
      OrphanHistory(old(history), history, old(folders), base, aside, source, names);
      OrphanStateIsSafe(folders, old(folders), base, aside, source, names);
      if !ok {
        return;
      }
      ghost var swept, op2 := folders, op;
      assert tmp !in swept;
      ok := Make(tmp);
      RefusalsJoin(old(op), op2, op);
      if !ok {
        return;
      }
      TmpHistory(old(history), made, history, swept, old(folders), base, tmp, aside, source, names);
      SameAt(folders, swept, tmp, base);
      SameTwice(folders, swept, old(folders), base);
      EmptyIsHonest(made, folders, tmp, source, names);
      ghost var begun, h, op3 := folders, history, op;
      ending := FillAndSwap(base, tmp, aside, source, listed, old(folders));
      RefusalsJoin(old(op), op3, op);
      SafeJoin(old(history), h, history, old(folders), base, aside, source, names);
      HonestJoin(made, h, history, tmp, source, names);
      removing := history;
      ghost var ended, op4 := folders, op;
      cleaned := Remove(tmp);
      RefusalsJoin(old(op), op4, op);
      OnlyAtSame(removing, history, ended, folders, tmp);
      TmpHistory(old(history), removing, history, ended, old(folders), base, tmp, aside, source, names);
      TmpIsAlone(ended, folders, old(folders), base, tmp, aside, source, names);
      SameAt(folders, ended, tmp, base);
      if SameButOrphans(ended, old(folders), base) {
        SameTwice(folders, ended, old(folders), base);
      }
      TmpRemoved(folders, ended, old(folders), base, tmp, aside);
      if ending.Finished? && cleaned {
        assert folders == Swept(base, old(folders))[base := folders[base]] by {
          FinalState(ended, begun, old(folders), base, tmp, aside);
        }
      }
    }
  }

  /** The sweep is why one run must follow another cleanly: if a crash fell between the two renames,
      the next run's sweep deletes the previous backup with its aside. It survives the sweep exactly
      if the destination holds it. */
  lemma SweepKeepsOnlyTheDestination(base: string, asideSuffix: string, s: Parent, previous: Folder)
    ensures var t, aside := Swept(base, s), AsideName(base, asideSuffix);
            (base in t && t[base] == previous) || (aside in t && t[aside] == previous)
            <==> base in s && s[base] == previous
  {
    NamesApart(base, "", asideSuffix);
  }
}
