// packages/minidb/src/dt-index.ts: one ordered list per datetime column, kept up to date record by
// record, against the plain table from record keys to their columns.
module DtIndex {
  import opened Wrappers
  import opened SortedPairs

  /** A number as it may come in a record. */
  datatype Stamp = Finite(ms: real) | Infinite(positive: bool) | NotANumber

  /** Column name to timestamp. */
  type Record = map<string, Stamp>

  /** Record key to record. */
  type Table = map<string, Record>

  datatype Column = Column(list: seq<Pair>, byKey: map<string, real>)

  datatype ImageColumn = ImageColumn(name: string, entries: seq<Pair>)

  const NO_RECORD: Record := map[]

  /** `===`: NaN equals nothing. */
  predicate Same(a: Stamp, b: Stamp) {
    a == b && !a.NotANumber?
  }

  function FiniteIn(r: Record, col: string): Option<real> {
    if col in r && r[col].Finite? then Some(r[col].ms) else None
  }

  /** The finite timestamp the table holds for a record and a column. */
  function Look(t: Table, key: string, col: string): Option<real> {
    if key in t then FiniteIn(t[key], col) else None
  }

  /** The same in the columns of the index. */
  function Get(cols: map<string, Column>, col: string, key: string): Option<real> {
    if col in cols && key in cols[col].byKey then Some(cols[col].byKey[key]) else None
  }

  /** A column of the table: the records that have it, finite. */
  function ColumnOf(t: Table, col: string): map<string, real> {
    map key | key in t && FiniteIn(t[key], col).Some? :: FiniteIn(t[key], col).value
  }

  ghost predicate ColumnsFit(cols: map<string, Column>) {
    forall col :: col in cols ==> cols[col].byKey != map[] && Lists(cols[col].list, cols[col].byKey)
  }

  /** The columns are those of the table. */
  ghost predicate Mirrors(cols: map<string, Column>, t: Table) {
    ColumnsFit(cols) && forall col, key :: Get(cols, col, key) == Look(t, key, col)
  }

  lemma MirrorsFit(cols: map<string, Column>, t: Table)
    requires Mirrors(cols, t)
    ensures ColumnsFit(cols)
  {
  }

  /** The table after set: no record if it has no columns. */
  function Put(t: Table, key: string, dt: Option<Record>): Table {
    if dt.Some? && dt.value != map[] then t[key := dt.value] else t - {key}
  }

  /** The columns with one entry more. */
  function With(cols: map<string, Column>, col: string, ms: real, key: string): map<string, Column> {
    var c := if col in cols then cols[col] else Column([], map[]);
    cols[col := Column(Insert(c.list, (ms, key)), c.byKey[key := ms])]
  }

  /** The columns without the entry of a key, and without the column if it was the last. */
  function Without(cols: map<string, Column>, col: string, stamp: Stamp, key: string): map<string, Column> {
    if col !in cols then cols
    else
      var c := Column(if stamp.Finite? then Delete(cols[col].list, (stamp.ms, key)) else cols[col].list,
                      cols[col].byKey - {key});
      if c.byKey == map[] then cols - {col} else cols[col := c]
  }

  lemma WithFits(cols: map<string, Column>, col: string, ms: real, key: string)
    requires ColumnsFit(cols) && Get(cols, col, key) == None
    ensures var next := With(cols, col, ms, key);
            ColumnsFit(next)
            && forall c, k :: Get(next, c, k) == if c == col && k == key then Some(ms) else Get(cols, c, k)
  {
    var c := if col in cols then cols[col] else Column([], map[]);
    InsertLists(c.list, c.byKey, ms, key);
    assert key in c.byKey[key := ms];
  }

  lemma WithoutFits(cols: map<string, Column>, col: string, stamp: Stamp, key: string)
    requires ColumnsFit(cols) && Get(cols, col, key) == (if stamp.Finite? then Some(stamp.ms) else None)
    ensures var next := Without(cols, col, stamp, key);
            ColumnsFit(next)
            && forall c, k :: Get(next, c, k) == if c == col && k == key then None else Get(cols, c, k)
  {
    if col in cols {
      var c := cols[col];
      if stamp.Finite? {
        DeleteLists(c.list, c.byKey, key);
      } else {
        assert c.byKey - {key} == c.byKey;
      }
      var next := Without(cols, col, stamp, key);
      forall d, k
        ensures Get(next, d, k) == if d == col && k == key then None else Get(cols, d, k)
      {
        if d == col && k in c.byKey && k != key {
          assert k in c.byKey - {key};
        }
      }
    }
  }

  datatype RangeEntry = RangeEntry(key: string, value: real)

  function Entries(list: seq<Pair>): seq<RangeEntry> {
    seq(|list|, i requires 0 <= i < |list| => RangeEntry(list[i].1, list[i].0))
  }

  function OnlyFinite(r: Record): Record {
    map c | c in r && r[c].Finite? :: r[c]
  }

  /** The table after add. */
  function Plus(t: Table, key: string, dt: Option<Record>): Table {
    if dt.Some? && OnlyFinite(dt.value) != map[] then t[key := OnlyFinite(dt.value)] else t
  }

  function Added(entries: seq<(string, Option<Record>)>): Table {
    if entries == [] then map[]
    else Plus(Added(entries[..|entries| - 1]), entries[|entries| - 1].0, entries[|entries| - 1].1)
  }

  /** The same records set one after another. */
  function AllSet(entries: seq<(string, Option<Record>)>): Table {
    if entries == [] then map[]
    else Put(AllSet(entries[..|entries| - 1]), entries[|entries| - 1].0, entries[|entries| - 1].1)
  }

  predicate UniqueKeys(entries: seq<(string, Option<Record>)>) {
    forall i, j :: 0 <= i < j < |entries| ==> entries[i].0 != entries[j].0
  }

  lemma {:induction false} AddedKeys(entries: seq<(string, Option<Record>)>)
    ensures forall key :: key in Added(entries) ==> exists i :: 0 <= i < |entries| && entries[i].0 == key
  {
    if entries != [] {
      var n := |entries| - 1;
      AddedKeys(entries[..n]);
      forall key | key in Added(entries)
        ensures exists i :: 0 <= i < |entries| && entries[i].0 == key
      {
        if key != entries[n].0 {
          assert key in Added(entries[..n]);
          var i :| 0 <= i < n && entries[..n][i].0 == key;
          assert entries[i].0 == key;
        }
      }
    }
  }

  /** A column that mirrors the table is that of the table, list and all. */
  lemma MirrorsColumn(cols: map<string, Column>, t: Table, col: string)
    requires Mirrors(cols, t)
    ensures col in cols <==> ColumnOf(t, col) != map[]
    ensures col in cols ==> cols[col].byKey == ColumnOf(t, col) && cols[col].list == Listing(ColumnOf(t, col))
  {
    forall key
      ensures Get(cols, col, key) == Look(t, key, col)
    {
    }
    if col in cols {
      assert cols[col].byKey == ColumnOf(t, col) by {
        forall key
          ensures key in cols[col].byKey <==> key in ColumnOf(t, col)
          ensures key in cols[col].byKey ==> cols[col].byKey[key] == ColumnOf(t, col)[key]
        {
          assert Get(cols, col, key) == Look(t, key, col);
        }
      }
      ListIsListing(cols[col].list, cols[col].byKey);
    } else {
      forall key
        ensures key !in ColumnOf(t, col)
      {
        assert Get(cols, col, key) == Look(t, key, col);
      }
    }
  }

  // ---- images ----------------------------------------------------------------

  function ToMap(entries: seq<Pair>): map<string, real> {
    if entries == [] then map[]
    else ToMap(entries[..|entries| - 1])[entries[|entries| - 1].1 := entries[|entries| - 1].0]
  }

  function ImageLook(image: seq<ImageColumn>, col: string, key: string): Option<real> {
    if image == [] then None
    else
      var last := image[|image| - 1];
      if last.name == col then
        if key in ToMap(last.entries) then Some(ToMap(last.entries)[key]) else None
      else ImageLook(image[..|image| - 1], col, key)
  }

  /** Columns named once, each in order, with an entry, and no record key twice. */
  ghost predicate WellFormed(image: seq<ImageColumn>) {
    && (forall i, j :: 0 <= i < j < |image| ==> image[i].name != image[j].name)
    && forall i :: 0 <= i < |image| ==> image[i].entries != [] && Lists(image[i].entries, ToMap(image[i].entries))
  }

  /** Every column of the table, and no other. */
  ghost predicate ImageOf(image: seq<ImageColumn>, t: Table) {
    && (forall i, j :: 0 <= i < j < |image| ==> image[i].name != image[j].name)
    && (forall i :: 0 <= i < |image| ==> ColumnOf(t, image[i].name) != map[]
                                         && image[i].entries == Listing(ColumnOf(t, image[i].name)))
    && forall col :: ColumnOf(t, col) != map[] ==> exists i :: 0 <= i < |image| && image[i].name == col
  }

  /** SkipList.bulkLoad: a pair equal to the one before is skipped. */
  function BulkLoad(entries: seq<Pair>): seq<Pair> {
    if entries == [] then []
    else
      var n := |entries| - 1;
      BulkLoad(entries[..n]) + (if n > 0 && entries[n - 1] == entries[n] then [] else [entries[n]])
  }

  lemma {:induction false} BulkLoadIsAll(entries: seq<Pair>)
    requires Ordered(entries)
    ensures BulkLoad(entries) == entries
  {
    if entries != [] {
      var n := |entries| - 1;
      BulkLoadIsAll(entries[..n]);
      if n > 0 {
        LessIsOrder(entries[n - 1], entries[n], entries[n]);
      }
      assert entries == entries[..n] + [entries[n]];
    }
  }

  lemma {:induction false} NotNamed(image: seq<ImageColumn>, col: string, key: string)
    requires forall i :: 0 <= i < |image| ==> image[i].name != col
    ensures ImageLook(image, col, key) == None
  {
    if image != [] {
      NotNamed(image[..|image| - 1], col, key);
    }
  }

  lemma NotBefore(image: seq<ImageColumn>, i: nat)
    requires i < |image| && WellFormed(image)
    ensures forall key :: ImageLook(image[..i], image[i].name, key) == None
  {
    forall key
      ensures ImageLook(image[..i], image[i].name, key) == None
    {
      NotNamed(image[..i], image[i].name, key);
    }
  }

  /** The image of some of the columns. */
  ghost predicate Exports(image: seq<ImageColumn>, cols: map<string, Column>, done: set<string>) {
    && (forall i :: 0 <= i < |image| ==> image[i].name in done && image[i].name in cols
                                         && image[i].entries == cols[image[i].name].list)
    && (forall col :: col in done ==> exists i :: 0 <= i < |image| && image[i].name == col)
    && forall i, j :: 0 <= i < j < |image| ==> image[i].name != image[j].name
  }

  lemma ExportsOneMore(image: seq<ImageColumn>, cols: map<string, Column>, done: set<string>, col: string)
    requires Exports(image, cols, done) && col in cols && col !in done
    ensures Exports(image + [ImageColumn(col, cols[col].list)], cols, done + {col})
  {
    var next := image + [ImageColumn(col, cols[col].list)];
    assert next[|image|].name == col;
    forall c | c in done
      ensures exists i :: 0 <= i < |next| && next[i].name == c
    {
      var i :| 0 <= i < |image| && image[i].name == c;
      assert next[i].name == c;
    }
  }

  lemma BulkLoads(entries: seq<Pair>)
    requires entries != [] && Lists(entries, ToMap(entries))
    ensures Lists(BulkLoad(entries), ToMap(entries)) && ToMap(entries) != map[]
  {
    BulkLoadIsAll(entries);
    assert entries[|entries| - 1].1 in ToMap(entries);
  }

  /** The inner loop of loadImage: the column's own map, and the records with the column. */
  method LoadRecords(name: string, entries: seq<Pair>, before: Table) returns (byKey: map<string, real>, next: Table)
    ensures byKey == ToMap(entries)
    ensures forall c, k :: Look(next, k, c) == if c == name && k in byKey then Some(byKey[k]) else Look(before, k, c)
  {
    byKey, next := map[], before;
    for j := 0 to |entries|
      invariant byKey == ToMap(entries[..j])
      invariant forall c, k ::
                  Look(next, k, c) == if c == name && k in byKey then Some(byKey[k]) else Look(before, k, c)
    {
      var e := entries[j];
      assert entries[..j + 1][..j] == entries[..j];
      byKey := byKey[e.1 := e.0];
      var rec := if e.1 in next then next[e.1] else NO_RECORD;
      StampShows(next, e.1, name, e.0);
      ghost var was := next;
      next := next[e.1 := rec[name := Finite(e.0)]];
      forall c, k
        ensures Look(next, k, c) == if c == name && k in byKey then Some(byKey[k]) else Look(before, k, c)
      {
        assert Look(next, k, c) == if k == e.1 && c == name then Some(e.0) else Look(was, k, c);
      }
    }
    assert entries[..|entries|] == entries;
  }

  lemma StampShows(t: Table, key: string, col: string, ms: real)
    ensures var rec := if key in t then t[key] else NO_RECORD;
            var next := t[key := rec[col := Finite(ms)]];
            forall k, c :: Look(next, k, c) == if k == key && c == col then Some(ms) else Look(t, k, c)
  {
    var rec := if key in t then t[key] else NO_RECORD;
    var next := t[key := rec[col := Finite(ms)]];
    forall k, c
      ensures Look(next, k, c) == if k == key && c == col then Some(ms) else Look(t, k, c)
    {
      if k == key && c != col {
        assert FiniteIn(next[key], c) == FiniteIn(rec, c);
      } else if k == key {
        assert next[key][col] == Finite(ms);
      } else {
        assert Look(next, k, c) == Look(t, k, c);
      }
    }
  }

  class DtIndex {
    var cols: map<string, Column>
    var byKey: Table

    ghost predicate Valid()
      reads this
    {
      Mirrors(cols, byKey)
    }

    constructor ()
      ensures Valid() && byKey == map[]
    {
      cols := map[];
      byKey := map[];
    }

    /** Removes the entries of a record that are gone or changed. */
    method RemoveChanged(key: string, was: Record, next: Record)
      requires Valid() && was == (if key in byKey then byKey[key] else NO_RECORD)
      modifies this`cols
      ensures ColumnsFit(cols)
      ensures forall c, k :: Get(cols, c, k) == AfterRemovals(byKey, was, next, key, {}, c, k)
    {
      hide ColumnsFit, Lists;
      MirrorsFit(cols, byKey);
      var todo := was.Keys;
      while todo != {}
        invariant todo <= was.Keys
        invariant ColumnsFit(cols)
        invariant forall c, k :: Get(cols, c, k) == AfterRemovals(byKey, was, next, key, todo, c, k)
      {
        var col :| col in todo;
        todo := todo - {col};
        if col !in next || !Same(was[col], next[col]) {
          WithoutFits(cols, col, was[col], key);
          cols := Without(cols, col, was[col], key);
        }
      }
    }

    /** Inserts those that are new or changed, and finite. */
    method InsertChanged(key: string, was: Record, next: Record)
      requires ColumnsFit(cols) && was == (if key in byKey then byKey[key] else NO_RECORD)
      requires forall c, k :: Get(cols, c, k) == AfterRemovals(byKey, was, next, key, {}, c, k)
      modifies this`cols
      ensures ColumnsFit(cols)
      ensures forall c, k :: Get(cols, c, k) == AfterInserts(byKey, was, next, key, {}, c, k)
    {
      hide ColumnsFit, Lists;
      var todo := next.Keys;
      while todo != {}
        invariant todo <= next.Keys
        invariant ColumnsFit(cols)
        invariant forall c, k :: Get(cols, c, k) == AfterInserts(byKey, was, next, key, todo, c, k)
      {
        var col :| col in todo;
        todo := todo - {col};
        if next[col].Finite? && !(col in was && Same(was[col], next[col])) {
          WithFits(cols, col, next[col].ms, key);
          cols := With(cols, col, next[col].ms, key);
        }
      }
    }

    /** Replaces the columns of a record; only what changed is touched. */
    method Set(key: string, dt: Option<Record>)
      requires Valid()
      modifies this
      ensures Valid() && byKey == Put(old(byKey), key, dt)
    {
      var was := if key in byKey then byKey[key] else NO_RECORD;
      var next := if dt.Some? then dt.value else NO_RECORD;
      RemoveChanged(key, was, next);
      InsertChanged(key, was, next);
      if next != map[] {
        byKey := byKey[key := next];
      } else {
        byKey := byKey - {key};
      }
    }

    method Del(key: string)
      requires Valid()
      modifies this
      ensures Valid() && byKey == old(byKey) - {key}
    {
      if key !in byKey {
        return;
      }
      var was := byKey[key];
      var todo := was.Keys;
      while todo != {}
        invariant todo <= was.Keys && byKey == old(byKey)
        invariant ColumnsFit(cols)
        invariant forall c, k :: Get(cols, c, k) == AfterRemovals(byKey, was, NO_RECORD, key, todo, c, k)
      {
        var col :| col in todo;
        todo := todo - {col};
        WithoutFits(cols, col, was[col], key);
        cols := Without(cols, col, was[col], key);
      }
      byKey := byKey - {key};
    }

    /** The scan of a column of the table. */
    method Range(col: string, o: Options) returns (r: seq<RangeEntry>)
      requires Valid()
      ensures r == Entries(SortedPairs.Range(Listing(ColumnOf(byKey, col)), o))
    {
      MirrorsColumn(cols, byKey, col);
      if col !in cols {
        return [];
      }
      r := Entries(SortedPairs.Range(cols[col].list, o));
    }

    /** The columns some record has, each once. */
    method Columns() returns (names: seq<string>)
      requires Valid()
      ensures forall col :: col in names <==> ColumnOf(byKey, col) != map[]
      ensures forall i, j :: 0 <= i < j < |names| ==> names[i] != names[j]
    {
      names := [];
      var todo := cols.Keys;
      while todo != {}
        invariant todo <= cols.Keys
        invariant forall col :: col in names <==> col in cols && col !in todo
        invariant forall i, j :: 0 <= i < j < |names| ==> names[i] != names[j]
      {
        var col :| col in todo;
        names := names + [col];
        todo := todo - {col};
      }
      forall col
        ensures col in names <==> ColumnOf(byKey, col) != map[]
      {
        MirrorsColumn(cols, byKey, col);
      }
    }

    /** Every column with its list. */
    method ExportImage() returns (image: seq<ImageColumn>)
      requires Valid()
      ensures ImageOf(image, byKey)
    {
      hide Lists, ColumnOf;
      image := [];
      var todo := cols.Keys;
      while todo != {}
        invariant todo <= cols.Keys && Exports(image, cols, cols.Keys - todo)
      {
        var col :| col in todo;
        ExportsOneMore(image, cols, cols.Keys - todo, col);
        image := image + [ImageColumn(col, cols[col].list)];
        assert cols.Keys - (todo - {col}) == (cols.Keys - todo) + {col};
        todo := todo - {col};
      }
      assert cols.Keys - todo == cols.Keys;
      forall col
        ensures (col in cols <==> ColumnOf(byKey, col) != map[])
                && (col in cols ==> cols[col].list == Listing(ColumnOf(byKey, col)))
      {
        MirrorsColumn(cols, byKey, col);
      }
    }

    /** Replaces the whole index by an image. */
    method LoadImage(image: seq<ImageColumn>)
      requires WellFormed(image)
      modifies this
      ensures Valid() && forall col, key :: Look(byKey, key, col) == ImageLook(image, col, key)
    {
      hide Lists, FiniteIn;
      var nextCols: map<string, Column>, nextByKey: Table := map[], map[];
      for i := 0 to |image|
        invariant ColumnsFit(nextCols)
        invariant forall c, k :: Get(nextCols, c, k) == ImageLook(image[..i], c, k)
        invariant forall c, k :: Look(nextByKey, k, c) == ImageLook(image[..i], c, k)
      {
        var name, entries := image[i].name, image[i].entries;
        NotBefore(image, i);
        assert image[..i + 1][..i] == image[..i];
        BulkLoads(entries);
        var byKey;
        byKey, nextByKey := LoadRecords(name, entries, nextByKey);
        nextCols := nextCols[name := Column(BulkLoad(entries), byKey)];
      }
      assert image[..|image|] == image;
      cols := nextCols;
      byKey := nextByKey;
    }

    /** Swaps a staged rebuild in. */
    method Commit(staged: Rebuild)
      requires staged.Valid()
      modifies this
      ensures Valid() && byKey == staged.byKey
    {
      cols := staged.cols;
      byKey := staged.byKey;
    }

    /** From the records of the store, whose keys are unique. Reading them or adding one may fail at
        any point; the index is then as it was. */
    method RebuildFrom(entries: seq<(string, Option<Record>)>) returns (ok: bool)
      requires Valid() && UniqueKeys(entries)
      modifies this
      ensures Valid()
      ensures ok ==> byKey == Added(entries)
      ensures !ok ==> cols == old(cols) && byKey == old(byKey)
    {
      var staged := new Rebuild();
      for i := 0 to |entries|
        invariant fresh(staged) && staged.Valid() && staged.byKey == Added(entries[..i])
        invariant cols == old(cols) && byKey == old(byKey)
      {
        ok := *;
        if !ok {
          return;
        }
        assert entries[..i + 1][..i] == entries[..i];
        AddedKeys(entries[..i]);
        staged.Add(entries[i].0, entries[i].1);
      }
      assert entries[..|entries|] == entries;
      Commit(staged);
      ok := true;
    }
  }

  /** What beginRebuild stages, apart from the index until it is committed. */
  class Rebuild {
    var cols: map<string, Column>
    var byKey: Table

    ghost predicate Valid()
      reads this
    {
      Mirrors(cols, byKey)
    }

    constructor ()
      ensures Valid() && byKey == map[]
    {
      cols := map[];
      byKey := map[];
    }

    /** A plain insert: the key must be new. */
    method Add(key: string, dt: Option<Record>)
      requires Valid() && key !in byKey
      modifies this
      ensures Valid() && byKey == Plus(old(byKey), key, dt)
    {
      if dt.None? {
        return;
      }
      var rec: Record := map[];
      var todo := dt.value.Keys;
      while todo != {}
        invariant todo <= dt.value.Keys && byKey == old(byKey)
        invariant rec == OnlyFinite(map c | c in dt.value && c !in todo :: dt.value[c])
        invariant ColumnsFit(cols)
        invariant forall c, k :: Get(cols, c, k) == if k == key then FiniteIn(rec, c) else Look(byKey, k, c)
      {
        var col :| col in todo;
        todo := todo - {col};
        var stamp := dt.value[col];
        if stamp.Finite? {
          WithFits(cols, col, stamp.ms, key);
          cols := With(cols, col, stamp.ms, key);
          rec := rec[col := stamp];
        }
      }
      assert rec == OnlyFinite(dt.value);
      if rec != map[] {
        byKey := byKey[key := rec];
      }
    }
  }

  predicate Kept(was: Record, next: Record, col: string) {
    col in was && col in next && Same(was[col], next[col])
  }

  /** While the old entries of a record are removed, those of the columns still to do remain. */
  function AfterRemovals(t: Table, was: Record, next: Record, key: string, todo: set<string>, col: string,
                         k: string): Option<real> {
    if k != key || col in todo || Kept(was, next, col) then Look(t, k, col) else None
  }

  /** While the new ones are inserted. */
  function AfterInserts(t: Table, was: Record, next: Record, key: string, todo: set<string>, col: string,
                        k: string): Option<real> {
    if k != key then Look(t, k, col)
    else if col in todo && !Kept(was, next, col) then None
    else FiniteIn(next, col)
  }

  // ---- what follows for every history ------------------------------------------

  /** Two tables that agree on every finite timestamp have the same columns, and so the same lists,
      names and scans. */
  ghost predicate SameLooks(t: Table, u: Table) {
    forall key, col :: Look(t, key, col) == Look(u, key, col)
  }

  lemma SameColumns(t: Table, u: Table)
    requires SameLooks(t, u)
    ensures forall col :: ColumnOf(t, col) == ColumnOf(u, col)
  {
    forall col
      ensures ColumnOf(t, col) == ColumnOf(u, col)
    {
      forall key
        ensures key in ColumnOf(t, col) <==> key in ColumnOf(u, col)
        ensures key in ColumnOf(t, col) ==> ColumnOf(t, col)[key] == ColumnOf(u, col)[key]
      {
        assert Look(t, key, col) == Look(u, key, col);
      }
    }
  }

  /** What set leaves to see. */
  lemma LookAfterPut(t: Table, key: string, dt: Option<Record>)
    ensures forall k, col :: Look(Put(t, key, dt), k, col)
                             == if k == key then (if dt.Some? then FiniteIn(dt.value, col) else None)
                               else Look(t, k, col)
  {
  }

  /** Tables that show the same go on showing the same, whatever is set or deleted in both. */
  lemma SetsKeepSameLooks(t: Table, u: Table, key: string, dt: Option<Record>)
    requires SameLooks(t, u)
    ensures SameLooks(Put(t, key, dt), Put(u, key, dt)) && SameLooks(t - {key}, u - {key})
  {
    LookAfterPut(t, key, dt);
    LookAfterPut(u, key, dt);
    LookAfterPut(t, key, None);
    LookAfterPut(u, key, None);
    forall k, col
      ensures Look(Put(t, key, dt), k, col) == Look(Put(u, key, dt), k, col)
      ensures Look(t - {key}, k, col) == Look(u - {key}, k, col)
    {
      assert Look(t, k, col) == Look(u, k, col);
      assert Put(t, key, None) == t - {key} && Put(u, key, None) == u - {key};
    }
  }

  lemma LookAfterPlus(t: Table, key: string, dt: Option<Record>)
    requires key !in t
    ensures forall k, col :: Look(Plus(t, key, dt), k, col)
                             == if k == key then (if dt.Some? then FiniteIn(dt.value, col) else None)
                               else Look(t, k, col)
  {
    if dt.Some? {
      forall col
        ensures FiniteIn(OnlyFinite(dt.value), col) == FiniteIn(dt.value, col)
      {
      }
      if OnlyFinite(dt.value) == map[] {
        forall col
          ensures FiniteIn(dt.value, col) == None
        {
          assert col !in OnlyFinite(dt.value);
        }
      }
    }
  }

  /** A rebuild over records with unique keys gives what setting them one by one gives. */
  lemma {:induction false} RebuildIsFold(entries: seq<(string, Option<Record>)>)
    requires UniqueKeys(entries)
    ensures SameLooks(Added(entries), AllSet(entries))
  {
    if entries != [] {
      var n := |entries| - 1;
      var key, dt := entries[n].0, entries[n].1;
      RebuildIsFold(entries[..n]);
      AddedKeys(entries[..n]);
      assert key !in Added(entries[..n]);
      LookAfterPut(AllSet(entries[..n]), key, dt);
      LookAfterPlus(Added(entries[..n]), key, dt);
      forall k, col
        ensures Look(Added(entries), k, col) == Look(AllSet(entries), k, col)
      {
        assert Look(Added(entries[..n]), k, col) == Look(AllSet(entries[..n]), k, col);
      }
    }
  }

  /** The image of a table is well formed and shows what the table shows. */
  lemma ImageShowsTable(image: seq<ImageColumn>, t: Table)
    requires ImageOf(image, t)
    ensures WellFormed(image)
    ensures forall col, key :: ImageLook(image, col, key) == Look(t, key, col)
  {
    forall i | 0 <= i < |image|
      ensures image[i].entries != [] && Lists(image[i].entries, ToMap(image[i].entries))
    {
      ListedMap(image[i].entries, ColumnOf(t, image[i].name));
    }
    forall col, key
      ensures ImageLook(image, col, key) == Look(t, key, col)
    {
      if ColumnOf(t, col) == map[] {
        assert key !in ColumnOf(t, col);
        NotNamed(image, col, key);
      } else {
        var i :| 0 <= i < |image| && image[i].name == col;
        ListedMap(image[i].entries, ColumnOf(t, col));
        NamedOnce(image, i, key);
        assert key in ColumnOf(t, col) <==> Look(t, key, col).Some?;
      }
    }
  }

  lemma {:induction false} NamedOnce(image: seq<ImageColumn>, i: nat, key: string)
    requires i < |image| && forall j, k :: 0 <= j < k < |image| ==> image[j].name != image[k].name
    ensures ImageLook(image, image[i].name, key)
            == if key in ToMap(image[i].entries) then Some(ToMap(image[i].entries)[key]) else None
  {
    var n := |image| - 1;
    if i < n {
      NamedOnce(image[..n], i, key);
    }
  }

  /** Reading the listing of a map gives the map. */
  lemma {:induction false} ListedMap(list: seq<Pair>, m: map<string, real>)
    requires Lists(list, m)
    ensures ToMap(list) == m && (m != map[] ==> list != [])
    decreases |list|
  {
    if list == [] {
      forall key
        ensures key !in m
      {
        var p: Pair := (if key in m then m[key] else 0.0, key);
        assert p !in list;
      }
    } else {
      var n := |list| - 1;
      var last := list[n];
      assert last in list;
      forall p: Pair
        ensures p in list[..n] <==> p.1 in m - {last.1} && (m - {last.1})[p.1] == p.0
      {
        LessIsOrder(last, last, last);
        assert forall i :: 0 <= i < n ==> Less(list[i], last);
        assert p in list <==> p in list[..n] || p == last;
      }
      ListedMap(list[..n], m - {last.1});
      assert (m - {last.1})[last.1 := last.0] == m;
    }
  }

  /** Exported and loaded again, the index shows the same: the tables agree, so by SameColumns do
      all its scans and its column names. */
  lemma ImageRoundTrip(t: Table, image: seq<ImageColumn>, u: Table)
    requires ImageOf(image, t)
    requires forall col, key :: Look(u, key, col) == ImageLook(image, col, key)
    ensures WellFormed(image) && SameLooks(t, u)
    ensures forall col :: ColumnOf(t, col) == ColumnOf(u, col)
  {
    ImageShowsTable(image, t);
    SameColumns(t, u);
  }
}
