/** Keeping the extension table in step with a directory of CGI programs. */
module CgiIndex {
  import opened Common
  import opened CgiDb

  const DB_NAME: string := ".extsdb"

  /** What a program says about itself when it is asked to verify. */
  datatype Verified = Verified(alias: string, md5: Option<string>, description: string)

  datatype FileStat = FileStat(isFile: bool, executable: bool)

  /** A directory entry, with what the host and the program answer when they are asked about it. */
  datatype Found = Found(name: string, stat: Result<FileStat, Error>, digest: Result<string, Error>,
                         verify: Result<Option<Verified>, Error>)

  /** An executable regular file other than the database. */
  predicate Runnable(e: Found) {
    e.name != DB_NAME && e.stat.Ok? && e.stat.value.isFile && e.stat.value.executable
  }

  /** The entry stops the listing: it cannot be examined, or a new one cannot be asked to verify. */
  predicate Blocks(e: Found, known: set<string>) {
    e.name != DB_NAME && (e.stat.Err? || (Runnable(e) && (e.digest.Err? || (e.name !in known && e.verify.Err?))))
  }

  /**
   * An answer that is asked for is refused: the file's state, unless it is the database; the digest
   * of an executable regular file; and what it says about itself, unless the table knows it.
   */
  lemma BlocksIff(e: Found, known: set<string>)
    ensures Blocks(e, known) ==> e.stat.Err? || e.digest.Err? || e.verify.Err?
    ensures e.name == ".extsdb" ==> !Blocks(e, known)
    ensures e.name != ".extsdb" && e.stat.Err? ==> Blocks(e, known)
    ensures e.stat.Ok? && !(e.stat.value.isFile && e.stat.value.executable) ==> !Blocks(e, known)
    ensures e.name != ".extsdb" && e.stat == Ok(FileStat(true, true)) ==>
              (Blocks(e, known) <==> e.digest.Err? || (e.verify.Err? && e.name !in known))
  {
  }

  predicate Verifies(e: Found) {
    e.verify.Ok? && e.verify.value.Some?
  }

  /** What is stored for a program that is new and verifies. */
  function NewMeta(e: Found): Meta
    requires Runnable(e) && Verifies(e) && e.digest.Ok?
  {
    var v := e.verify.value.value;
    Meta(0, v.alias, if v.md5.Some? then v.md5.value else e.digest.value, v.description, e.name, Normal)
  }

  /** A directory lists each name once. */
  ghost predicate NamesDistinct(entries: seq<Found>) {
    forall i, j | 0 <= i < j < |entries| :: entries[i].name != entries[j].name
  }

  // ---------- reading the table ----------

  /** The metas of the table's rows, all marked as invalid for now. */
  ghost predicate Recalls(m: map<string, Meta>, rows: Rows) {
    && m.Keys == Files(rows)
    && forall f | f in m ::
         m[f].fileName == f && m[f].status == Invalid && m[f].id in rows && rows[m[f].id] == RowOf(m[f])
  }

  /**
   * The rows that are recalled: all of those that are not `missing`, but one of each file only,
   * the last one that is read.
   */
  ghost predicate IsRecall(recalled: Rows, rows: Rows, missing: set<nat>) {
    && FileUnique(recalled)
    && (forall id | id in recalled :: id in rows && id !in missing && recalled[id] == rows[id])
    && (forall id | id in rows && id !in missing :: rows[id].fileName in Files(recalled))
  }

  /** The rows a query does not give: all of them when it fails, otherwise those that cannot be read. */
  function Missing(rows: Rows, listed: bool, dropped: set<nat>): set<nat> {
    if listed then dropped else rows.Keys
  }

  /** Everything is recalled exactly when no row is missing and no file has two of them. */
  lemma AllRecalledIff(recalled: Rows, rows: Rows, missing: set<nat>)
    requires IsRecall(recalled, rows, missing)
    ensures recalled == rows <==> FileUnique(rows) && missing !! rows.Keys
  {
    if FileUnique(rows) && missing !! rows.Keys {
      forall id | id in rows ensures id in recalled {
        assert rows[id].fileName in Files(recalled);
        assert rows[IdOf(recalled, rows[id].fileName)].fileName == rows[id].fileName;
      }
      assert recalled.Keys == rows.Keys;
    }
  }

  /** The rows behind the metas. */
  ghost function RowsBehind(m: map<string, Meta>, rows: Rows): (r: Rows)
    ensures forall f | f in m && m[f].id in rows :: m[f].id in r
    ensures forall id | id in r :: id in rows && r[id] == rows[id] && exists f :: f in m && m[f].id == id
  {
    var ids := set f | f in m :: m[f].id;
    map id | id in rows && id in ids :: rows[id]
  }

  /** The metas are those of rows that are not missing, at most one of each file. */
  ghost predicate FromTable(m: map<string, Meta>, rows: Rows, missing: set<nat>) {
    forall f | f in m ::
      && m[f].fileName == f && m[f].status == Invalid && m[f].id !in missing
      && m[f].id in rows && rows[m[f].id] == RowOf(m[f])
  }

  lemma RecallBehind(m: map<string, Meta>, rows: Rows, missing: set<nat>)
    requires FromTable(m, rows, missing)
    requires forall id | id in rows && id !in missing :: rows[id].fileName in m
    ensures Recalls(m, RowsBehind(m, rows)) && IsRecall(RowsBehind(m, rows), rows, missing)
  {
    var r := RowsBehind(m, rows);
    forall f | f in m ensures f in Files(r) {
      assert m[f].id in r && r[m[f].id].fileName == f;
    }
    forall id | id in r ensures r[id].fileName in m && m[r[id].fileName].id == id {
      var f :| f in m && m[f].id == id;
      assert r[id].fileName == f;
    }
    assert Files(r) == m.Keys;
  }

  /**
   * `list_extensions_from_db`: a failed query counts as an empty table, and rows that cannot be
   * read count as absent.
   */
  method ListExtensionsFromDb(db: Db, dropped: set<nat>)
    returns (m: map<string, Meta>, ghost recalled: Rows, ghost listed: bool)
    requires db.Valid()
    modifies db`ran
    ensures db.ran == old(db.ran) + 1 && (listed <==> !db.faults(old(db.ran)))
    ensures Recalls(m, recalled) && IsRecall(recalled, db.rows, Missing(db.rows, listed, dropped))
  {
    var exts := db.ListExtensions(dropped);
    m, listed := map[], exts.Ok?;
    ghost var missing := Missing(db.rows, listed, dropped);
    if exts.Ok? {
      for k := 0 to |exts.value|
        invariant forall j | 0 <= j < k :: exts.value[j].fileName in m
        invariant FromTable(m, db.rows, missing)
      {
        var ext := exts.value[k].(status := Invalid);
        m := m[ext.fileName := ext];
      }
      forall id | id in db.rows && id !in missing ensures db.rows[id].fileName in m {
        var k :| 0 <= k < |exts.value| && exts.value[k].id == id;
        assert exts.value[k].fileName in m;
      }
    }
    RecallBehind(m, db.rows, missing);
    recalled := RowsBehind(m, db.rows);
  }

  // ---------- walking the directory ----------

  /** The metas of new programs that verify, among the first `n` entries. */
  function NewMetas(entries: seq<Found>, known: set<string>, n: nat): seq<Meta>
    requires n <= |entries| && forall i | 0 <= i < n :: !Blocks(entries[i], known)
  {
    if n == 0 then []
    else
      var e := entries[n - 1];
      assert !Blocks(e, known);
      NewMetas(entries, known, n - 1)
      + (if Runnable(e) && e.name !in known && Verifies(e) then [NewMeta(e)] else [])
  }

  /**
   * The known metas after the first `n` entries: those of files that are still there are marked
   * and have a current digest.
   */
  ghost predicate Marked(before: map<string, Meta>, after: map<string, Meta>, entries: seq<Found>, n: nat) {
    && n <= |entries| && after.Keys == before.Keys
    && (forall i | 0 <= i < n && Runnable(entries[i]) && entries[i].name in before ::
          entries[i].digest.Ok?
          && after[entries[i].name] == before[entries[i].name].(md5 := entries[i].digest.value, status := Update))
    && (forall f | f in before && (forall i | 0 <= i < n :: !(Runnable(entries[i]) && entries[i].name == f)) ::
          after[f] == before[f])
  }

  /** The next entry is a known program: its meta is marked. */
  lemma MarkOne(before: map<string, Meta>, after: map<string, Meta>, entries: seq<Found>, n: nat)
    requires Marked(before, after, entries, n) && n < |entries| && NamesDistinct(entries)
    requires Runnable(entries[n]) && entries[n].digest.Ok? && entries[n].name in before
    ensures var name, digest := entries[n].name, entries[n].digest.value;
            Marked(before, after[name := after[name].(md5 := digest, status := Update)], entries, n + 1)
  {
  }

  /** The next entry is none of the known programs. */
  lemma MarkNone(before: map<string, Meta>, after: map<string, Meta>, entries: seq<Found>, n: nat)
    requires Marked(before, after, entries, n) && n < |entries|
    requires !Runnable(entries[n]) || entries[n].name !in before
    ensures Marked(before, after, entries, n + 1)
  {
  }

  /** `list_cgi_directory` */
  method ListCgiDirectory(readable: bool, entries: seq<Found>, known: map<string, Meta>)
    returns (r: Result<seq<Meta>, Error>, metaDb: map<string, Meta>)
    requires NamesDistinct(entries)
    ensures r.Ok? <==> readable && forall i | 0 <= i < |entries| :: !Blocks(entries[i], known.Keys)
    ensures r.Ok? ==> r.value == NewMetas(entries, known.Keys, |entries|) && Marked(known, metaDb, entries, |entries|)
  {
    metaDb := known;
    if !readable {
      return Err(Io(5)), metaDb;
    }
    var rs: seq<Meta> := [];
    for i := 0 to |entries|
      invariant forall j | 0 <= j < i :: !Blocks(entries[j], known.Keys)
      invariant rs == NewMetas(entries, known.Keys, i) && Marked(known, metaDb, entries, i)
    {
      var e := entries[i];
      if !Runnable(e) || e.name !in known {
        MarkNone(known, metaDb, entries, i);
      }
      if e.name != DB_NAME {
        if e.stat.Err? {
          assert Blocks(entries[i], known.Keys);
          return Err(e.stat.error), metaDb;
        }
        if e.stat.value.isFile && e.stat.value.executable {
          if e.digest.Err? {
            assert Blocks(entries[i], known.Keys);
            return Err(e.digest.error), metaDb;
          }
          if e.name in metaDb {
            var meta := metaDb[e.name];
            if meta.md5 != e.digest.value {
              meta := meta.(md5 := e.digest.value);
            }
            MarkOne(known, metaDb, entries, i);
            metaDb := metaDb[e.name := meta.(status := Update)];
          } else {
            if e.verify.Err? {
              assert Blocks(entries[i], known.Keys);
              return Err(e.verify.error), metaDb;
            }
            if e.verify.value.Some? {
              rs := rs + [NewMeta(e)];
            }
          }
        }
      }
    }
    return Ok(rs), metaDb;
  }

  // ---------- saving ----------

  /** The metas can be saved one by one: each file once, with a status that fits the table. */
  ghost predicate PlanFits(rows: Rows, metas: seq<Meta>) {
    && (forall i, j | 0 <= i < j < |metas| :: metas[i].fileName != metas[j].fileName)
    && (forall k | 0 <= k < |metas| :: StatusFits(rows, metas[k]))
  }

  ghost predicate StatusFits(rows: Rows, m: Meta) {
    match m.status
    case Normal => m.fileName !in Files(rows)
    case Update => m.id in rows && rows[m.id].fileName == m.fileName && rows[m.id].alias == m.alias
    case Invalid => m.id in rows && rows[m.id].fileName == m.fileName
  }

  function Apply(v: map<string, Row>, m: Meta): map<string, Row> {
    if m.status == Invalid then v - {m.fileName} else v[m.fileName := RowOf(m)]
  }

  /** The table by file name after the first `n` metas were saved. */
  function Saved(v: map<string, Row>, metas: seq<Meta>, n: nat): map<string, Row>
    requires n <= |metas|
  {
    if n == 0 then v else Apply(Saved(v, metas, n - 1), metas[n - 1])
  }

  lemma {:induction false} SavedElsewhere(v: map<string, Row>, metas: seq<Meta>, n: nat, f: string)
    requires n <= |metas| && forall k | 0 <= k < n :: metas[k].fileName != f
    ensures f in Saved(v, metas, n) <==> f in v
    ensures f in v ==> Saved(v, metas, n)[f] == v[f]
  {
    if n > 0 {
      SavedElsewhere(v, metas, n - 1, f);
    }
  }

  /** A file that came into the table was in the plan. */
  lemma {:induction false} SavedFrom(v: map<string, Row>, metas: seq<Meta>, n: nat, f: string) returns (k: nat)
    requires n <= |metas| && f in Saved(v, metas, n) && f !in v
    ensures k < n && metas[k].fileName == f
  {
    if metas[n - 1].fileName == f {
      k := n - 1;
    } else {
      k := SavedFrom(v, metas, n - 1, f);
    }
  }

  /** The entry of each saved file is what its own meta says. */
  lemma {:induction false} SavedAt(v: map<string, Row>, metas: seq<Meta>, n: nat, k: nat)
    requires k < n <= |metas| && forall i, j | 0 <= i < j < |metas| :: metas[i].fileName != metas[j].fileName
    ensures metas[k].fileName in Saved(v, metas, n) <==> metas[k].status != Invalid
    ensures metas[k].status != Invalid ==> Saved(v, metas, n)[metas[k].fileName] == RowOf(metas[k])
  {
    if k < n - 1 {
      SavedAt(v, metas, n - 1, k);
    }
  }

  /** Rows of files that come later in the plan were not touched yet. */
  ghost predicate Untouched(before: Rows, after: Rows, metas: seq<Meta>, n: nat)
    requires n <= |metas|
  {
    forall id | id in before && (forall k | 0 <= k < n :: metas[k].fileName != before[id].fileName) ::
      id in after && after[id] == before[id]
  }

  /** The state of the table in the middle of a save. */
  ghost predicate Saving(before: Rows, after: Rows, metas: seq<Meta>, n: nat) {
    && n <= |metas| && FileUnique(after)
    && View(after) == Saved(View(before), metas, n) && Untouched(before, after, metas, n)
  }

  /** A statement that leaves the rows of other files alone. */
  ghost predicate TouchesOnly(rows: Rows, after: Rows, f: string) {
    forall id | id in rows && rows[id].fileName != f :: id in after && after[id] == rows[id]
  }

  lemma UntouchedStep(before: Rows, rows: Rows, after: Rows, metas: seq<Meta>, n: nat)
    requires n < |metas| && Untouched(before, rows, metas, n) && TouchesOnly(rows, after, metas[n].fileName)
    ensures Untouched(before, after, metas, n + 1)
  {
  }

  lemma SavingStep(before: Rows, rows: Rows, after: Rows, metas: seq<Meta>, n: nat)
    requires n < |metas| && Saving(before, rows, metas, n)
    requires FileUnique(after) && View(after) == Apply(View(rows), metas[n])
    requires TouchesOnly(rows, after, metas[n].fileName)
    ensures Saving(before, after, metas, n + 1)
  {
    UntouchedStep(before, rows, after, metas, n);
  }

  /** A file whose turn has not come is in the table exactly when it was before. */
  lemma NotSavedYet(before: Rows, rows: Rows, metas: seq<Meta>, n: nat)
    requires PlanFits(before, metas) && Saving(before, rows, metas, n) && n < |metas|
    ensures metas[n].fileName in Files(rows) <==> metas[n].fileName in Files(before)
  {
    SavedElsewhere(View(before), metas, n, metas[n].fileName);
    assert metas[n].fileName in View(rows) <==> metas[n].fileName in View(before);
  }

  lemma InsertTouchesOnly(rows: Rows, id: nat, m: Meta)
    requires id !in rows
    ensures TouchesOnly(rows, Inserted(rows, id, m), m.fileName)
  {
  }

  /** Updating a file that the table knows. */
  lemma UpdateKnown(rows: Rows, after: Rows, m: Meta)
    requires FileUnique(rows) && m.fileName in Files(rows) && m.status == Update && after == Updated(rows, m)
    ensures FileUnique(after) && View(after) == Apply(View(rows), m) && TouchesOnly(rows, after, m.fileName)
  {
    UpdateView(rows, m);
    ApplyPuts(View(rows), m);
    UpdateTouchesOnly(rows, m);
  }

  lemma UpdateTouchesOnly(rows: Rows, m: Meta)
    ensures TouchesOnly(rows, Updated(rows, m), m.fileName)
  {
  }

  lemma ApplyPuts(v: map<string, Row>, m: Meta)
    requires m.status != Invalid
    ensures Apply(v, m) == v[m.fileName := RowOf(m)]
  {
  }

  lemma SaveInsert(before: Rows, rows: Rows, metas: seq<Meta>, n: nat, id: nat)
    requires PlanFits(before, metas) && Saving(before, rows, metas, n)
    requires n < |metas| && metas[n].status == Normal && id !in rows
    ensures Saving(before, Inserted(rows, id, metas[n]), metas, n + 1)
  {
    assert StatusFits(before, metas[n]);
    NotSavedYet(before, rows, metas, n);
    InsertView(rows, id, metas[n]);
    InsertTouchesOnly(rows, id, metas[n]);
    SavingStep(before, rows, Inserted(rows, id, metas[n]), metas, n);
  }

  lemma SaveUpdate(before: Rows, rows: Rows, metas: seq<Meta>, n: nat)
    requires PlanFits(before, metas) && Saving(before, rows, metas, n)
    requires n < |metas| && metas[n].status == Update
    ensures Saving(before, Updated(rows, metas[n]), metas, n + 1)
  {
    assert StatusFits(before, metas[n]);
    NotSavedYet(before, rows, metas, n);
    var after := Updated(rows, metas[n]);
    UpdateKnown(rows, after, metas[n]);
    SavingStep(before, rows, after, metas, n);
  }

  lemma SaveDelete(before: Rows, rows: Rows, metas: seq<Meta>, n: nat)
    requires PlanFits(before, metas) && Saving(before, rows, metas, n)
    requires n < |metas| && metas[n].status == Invalid
    ensures Saving(before, Deleted(rows, metas[n]), metas, n + 1)
  {
    assert StatusFits(before, metas[n]);
    assert forall k | 0 <= k < n :: metas[k].fileName != before[metas[n].id].fileName;
    DeleteView(rows, metas[n]);
    SavingStep(before, rows, Deleted(rows, metas[n]), metas, n);
  }

  /**
   * The state of the whole table in the middle of a save: the rows that were not recalled are as
   * they were, and no file that was updated is among them.
   */
  ghost predicate Managing(rows: Rows, kept: Rows, before: Rows, managed: Rows, metas: seq<Meta>, n: nat) {
    && Splits(rows, kept, managed) && Saving(before, managed, metas, n)
    && forall k | 0 <= k < n && metas[k].status == Update :: metas[k].fileName !in Files(kept)
  }

  lemma ManageInsert(rows: Rows, kept: Rows, before: Rows, managed: Rows, metas: seq<Meta>, n: nat, id: nat)
    requires PlanFits(before, metas) && Managing(rows, kept, before, managed, metas, n)
    requires n < |metas| && metas[n].status == Normal && id !in rows
    ensures Managing(Inserted(rows, id, metas[n]), kept, before, Inserted(managed, id, metas[n]), metas, n + 1)
  {
    SaveInsert(before, managed, metas, n, id);
    SplitInsert(rows, kept, managed, id, metas[n]);
  }

  /** The row of a meta that is still to be saved is as it was recalled. */
  lemma StillThere(before: Rows, managed: Rows, metas: seq<Meta>, n: nat)
    requires PlanFits(before, metas) && Saving(before, managed, metas, n)
    requires n < |metas| && metas[n].status != Normal
    ensures var id := metas[n].id;
            id in before && id in managed && managed[id] == before[id] && managed[id].fileName == metas[n].fileName
  {
    assert StatusFits(before, metas[n]);
    assert forall k | 0 <= k < n :: metas[k].fileName != before[metas[n].id].fileName;
  }

  /** An update of a recalled file clashes exactly when a row of that file was not recalled. */
  lemma UpdateClashIff(rows: Rows, kept: Rows, before: Rows, managed: Rows, metas: seq<Meta>, n: nat)
    requires PlanFits(before, metas) && Managing(rows, kept, before, managed, metas, n) && AliasUnique(rows)
    requires n < |metas| && metas[n].status == Update
    ensures AliasUnique(Updated(rows, metas[n])) <==> metas[n].fileName !in Files(kept)
  {
    var f, id := metas[n].fileName, metas[n].id;
    StillThere(before, managed, metas, n);
    assert StatusFits(before, metas[n]);
    if f in Files(kept) {
      DoubleUpdateFails(rows, metas[n], IdOf(kept, f), id);
    } else {
      forall a | a in rows && rows[a].fileName == f ensures a == id {
        OnlyRow(rows, kept, managed, a, id);
      }
      SameAliasUpdate(rows, metas[n], id);
    }
  }

  lemma OnlyRow(rows: Rows, kept: Rows, managed: Rows, a: nat, id: nat)
    requires Splits(rows, kept, managed) && FileUnique(managed) && id in managed && a in rows
    requires rows[a].fileName == managed[id].fileName && managed[id].fileName !in Files(kept)
    ensures a == id
  {
  }

  lemma ManageUpdate(rows: Rows, kept: Rows, before: Rows, managed: Rows, metas: seq<Meta>, n: nat)
    requires PlanFits(before, metas) && Managing(rows, kept, before, managed, metas, n)
    requires n < |metas| && metas[n].status == Update && metas[n].fileName !in Files(kept)
    ensures Managing(Updated(rows, metas[n]), kept, before, Updated(managed, metas[n]), metas, n + 1)
  {
    SaveUpdate(before, managed, metas, n);
    SplitUpdate(rows, kept, managed, metas[n]);
  }

  lemma ManageDelete(rows: Rows, kept: Rows, before: Rows, managed: Rows, metas: seq<Meta>, n: nat)
    requires PlanFits(before, metas) && Managing(rows, kept, before, managed, metas, n)
    requires n < |metas| && metas[n].status == Invalid
    ensures Managing(Deleted(rows, metas[n]), kept, before, Deleted(managed, metas[n]), metas, n + 1)
  {
    StillThere(before, managed, metas, n);
    SaveDelete(before, managed, metas, n);
    SplitDelete(rows, kept, managed, metas[n]);
  }

  /** The aliases of the first `n` metas. */
  function AliasesOf(metas: seq<Meta>, n: nat): set<string>
    requires n <= |metas|
  {
    set k | 0 <= k < n :: metas[k].alias
  }

  /**
   * The statement for meta `k` meets no clash: a new alias is neither in the table, whose aliases
   * were `aliases`, nor among those stored before it, and a file to update is none of `doubles`,
   * which have rows that were not recalled.
   */
  ghost predicate Accepts(aliases: set<string>, doubles: set<string>, metas: seq<Meta>, k: nat)
    requires k < |metas|
  {
    match metas[k].status
    case Normal => metas[k].alias !in aliases + AliasesOf(metas, k)
    case Update => metas[k].fileName !in doubles
    case Invalid => true
  }

  /** The first `news` metas are the new ones. */
  ghost predicate NewFirst(metas: seq<Meta>, news: nat) {
    forall k | 0 <= k < |metas| :: metas[k].status == Normal <==> k < news
  }

  /** As long as only new metas were stored, the table has their aliases besides those it had. */
  ghost predicate Stored(aliases: set<string>, rows: Rows, metas: seq<Meta>, news: nat, n: nat)
    requires n <= |metas|
  {
    n <= news ==> Aliases(rows) == aliases + AliasesOf(metas, n)
  }

  lemma StoredOneMore(aliases: set<string>, rows: Rows, after: Rows, metas: seq<Meta>, news: nat, n: nat)
    requires n < |metas| && NewFirst(metas, news) && Stored(aliases, rows, metas, news, n)
    requires metas[n].status == Normal ==> Aliases(after) == Aliases(rows) + {metas[n].alias}
    ensures Stored(aliases, after, metas, news, n + 1)
  {
    assert AliasesOf(metas, n + 1) == AliasesOf(metas, n) + {metas[n].alias};
  }

  /** Statement `k` of the save, the `start + k`-th of all, neither fails for reasons of its own nor clashes. */
  ghost predicate Goes(aliases: set<string>, doubles: set<string>, metas: seq<Meta>, faults: nat -> bool, start: nat,
                       k: nat)
    requires k < |metas|
  {
    !faults(start + k) && Accepts(aliases, doubles, metas, k)
  }

  ghost predicate GoesTo(aliases: set<string>, doubles: set<string>, metas: seq<Meta>, faults: nat -> bool, start: nat,
                         n: nat)
    requires n <= |metas|
  {
    n > 0 ==>
      && GoesTo(aliases, doubles, metas, faults, start, n - 1)
      && Goes(aliases, doubles, metas, faults, start, n - 1)
  }

  lemma {:induction false} GoesToIff(aliases: set<string>, doubles: set<string>, metas: seq<Meta>, faults: nat -> bool,
                                     start: nat, n: nat)
    requires n <= |metas|
    ensures GoesTo(aliases, doubles, metas, faults, start, n) <==>
              forall k | 0 <= k < n :: Goes(aliases, doubles, metas, faults, start, k)
  {
    if n > 0 {
      GoesToIff(aliases, doubles, metas, faults, start, n - 1);
    }
  }

  lemma GoesOneMore(aliases: set<string>, doubles: set<string>, metas: seq<Meta>, faults: nat -> bool, start: nat,
                    n: nat)
    requires n < |metas| && GoesTo(aliases, doubles, metas, faults, start, n)
    ensures if Goes(aliases, doubles, metas, faults, start, n)
            then GoesTo(aliases, doubles, metas, faults, start, n + 1)
            else !GoesTo(aliases, doubles, metas, faults, start, |metas|)
  {
    GoesToIff(aliases, doubles, metas, faults, start, |metas|);
  }

  lemma GoesFurther(aliases: set<string>, doubles: set<string>, metas: seq<Meta>, faults: nat -> bool, start: nat,
                    n: nat, ran: nat, ok: bool)
    requires n < |metas| && GoesTo(aliases, doubles, metas, faults, start, n)
    requires ran == start + n && (ok <==> !faults(ran) && Accepts(aliases, doubles, metas, n))
    ensures if ok then GoesTo(aliases, doubles, metas, faults, start, n + 1)
            else !GoesTo(aliases, doubles, metas, faults, start, |metas|)
  {
    GoesOneMore(aliases, doubles, metas, faults, start, n);
  }

  /** Storing a new program; when `tracked`, with the state of the save before and after it. */
  method SaveNew(db: Db, metas: seq<Meta>, i: nat, ghost tracked: bool, ghost recalled: Rows, ghost kept: Rows,
                 ghost before: Rows)
    returns (r: Result<(), Error>, ghost managed: Rows)
    requires db.Valid() && i < |metas| && metas[i].status == Normal
    requires tracked ==> PlanFits(recalled, metas) && Managing(db.rows, kept, recalled, before, metas, i)
    modifies db
    ensures db.Valid() && db.ran == old(db.ran) + 1
    ensures r.Ok? <==> !db.faults(old(db.ran)) && metas[i].alias !in Aliases(old(db.rows))
    ensures r.Ok? ==> Aliases(db.rows) == Aliases(old(db.rows)) + {metas[i].alias}
    ensures tracked ==> Managing(db.rows, kept, recalled, managed, metas, if r.Ok? then i + 1 else i)
  {
    ghost var rows, id := db.rows, 0;
    managed := before;
    r, id := db.InsertExtensionMeta(metas[i]);
    if r.Ok? {
      InsertedAliases(rows, id, metas[i]);
      if tracked {
        ManageInsert(rows, kept, recalled, before, metas, i, id);
        managed := Inserted(before, id, metas[i]);
      }
    }
  }

  /** Updating a known program; it clashes exactly when a row of its file was not recalled. */
  method SaveKnown(db: Db, metas: seq<Meta>, i: nat, ghost tracked: bool, ghost recalled: Rows, ghost kept: Rows,
                   ghost before: Rows)
    returns (r: Result<(), Error>, ghost managed: Rows)
    requires db.Valid() && i < |metas| && metas[i].status == Update
    requires tracked ==> PlanFits(recalled, metas) && Managing(db.rows, kept, recalled, before, metas, i)
    modifies db
    ensures db.Valid() && db.ran == old(db.ran) + 1
    ensures tracked ==> (r.Ok? <==> !db.faults(old(db.ran)) && metas[i].fileName !in Files(kept))
    ensures tracked ==> Managing(db.rows, kept, recalled, managed, metas, if r.Ok? then i + 1 else i)
  {
    ghost var rows := db.rows;
    managed := before;
    if tracked {
      UpdateClashIff(rows, kept, recalled, before, metas, i);
    }
    r := db.UpdateExtensionMeta(metas[i]);
    if tracked && r.Ok? {
      ManageUpdate(rows, kept, recalled, before, metas, i);
      managed := Updated(before, metas[i]);
    }
  }

  /** Deleting a program that is gone. */
  method SaveGone(db: Db, metas: seq<Meta>, i: nat, ghost tracked: bool, ghost recalled: Rows, ghost kept: Rows,
                  ghost before: Rows)
    returns (r: Result<(), Error>, ghost managed: Rows)
    requires db.Valid() && i < |metas| && metas[i].status == Invalid
    requires tracked ==> PlanFits(recalled, metas) && Managing(db.rows, kept, recalled, before, metas, i)
    modifies db
    ensures db.Valid() && db.ran == old(db.ran) + 1
    ensures r.Ok? <==> !db.faults(old(db.ran))
    ensures tracked ==> Managing(db.rows, kept, recalled, managed, metas, if r.Ok? then i + 1 else i)
  {
    ghost var rows := db.rows;
    managed := before;
    r := db.DeleteExtensionMeta(metas[i]);
    if tracked && r.Ok? {
      ManageDelete(rows, kept, recalled, before, metas, i);
      managed := Deleted(before, metas[i]);
    }
  }

  /** What the loop of a save keeps; `tracked` says that the plan was made from the recalled rows. */
  ghost predicate SavingOn(db: Db, metas: seq<Meta>, i: nat, tracked: bool, recalled: Rows, kept: Rows,
                           managed: Rows, aliases: set<string>, news: nat, start: nat)
    reads db
  {
    && db.Valid() && db.ran == start + i && i <= |metas|
    && (tracked ==> Managing(db.rows, kept, recalled, managed, metas, i))
    && (NewFirst(metas, news) ==> Stored(aliases, db.rows, metas, news, i))
    && (tracked && NewFirst(metas, news) ==> GoesTo(aliases, Files(kept), metas, db.faults, start, i))
  }

  /** The statement for one meta. */
  method SaveOne(db: Db, metas: seq<Meta>, i: nat, ghost tracked: bool, ghost recalled: Rows, ghost kept: Rows,
                 ghost before: Rows, ghost aliases: set<string>, ghost news: nat, ghost start: nat)
    returns (r: Result<(), Error>, ghost managed: Rows)
    requires i < |metas| && SavingOn(db, metas, i, tracked, recalled, kept, before, aliases, news, start)
    requires tracked ==> PlanFits(recalled, metas)
    modifies db
    ensures r.Ok? ==> SavingOn(db, metas, i + 1, tracked, recalled, kept, managed, aliases, news, start)
    ensures r.Err? ==>
              && db.Valid() && (tracked ==> Managing(db.rows, kept, recalled, managed, metas, i))
              && (tracked && NewFirst(metas, news) ==>
                    && GoesTo(aliases, Files(kept), metas, db.faults, start, i)
                    && !GoesTo(aliases, Files(kept), metas, db.faults, start, |metas|))
  {
    ghost var rows, ran := db.rows, db.ran;
    match metas[i].status {
      case Normal =>
        r, managed := SaveNew(db, metas, i, tracked, recalled, kept, before);
      case Update =>
        r, managed := SaveKnown(db, metas, i, tracked, recalled, kept, before);
      case Invalid =>
        r, managed := SaveGone(db, metas, i, tracked, recalled, kept, before);
    }
    if NewFirst(metas, news) && r.Ok? {
      StoredOneMore(aliases, rows, db.rows, metas, news, i);
    }
    if tracked && NewFirst(metas, news) {
      GoesFurther(aliases, Files(kept), metas, db.faults, start, i, ran, r.Ok?);
    }
  }

  /**
   * `save_extensions`: it stops at the first statement that fails, and what was done before stays.
   * For a plan made from some rows of the table, `recalled`, the other rows are left as they are.
   */
  method SaveExtensions(db: Db, metas: seq<Meta>, ghost recalled: Rows, ghost kept: Rows, ghost news: nat)
    returns (r: Result<(), Error>, ghost managed: Rows, ghost done: nat)
    requires db.Valid()
    modifies db
    ensures db.Valid() && done <= |metas| && (r.Ok? <==> done == |metas|)
    ensures Splits(old(db.rows), kept, recalled) && FileUnique(recalled) && PlanFits(recalled, metas) ==>
              Managing(db.rows, kept, recalled, managed, metas, done)
    ensures Splits(old(db.rows), kept, recalled) && FileUnique(recalled) && PlanFits(recalled, metas)
            && NewFirst(metas, news) ==>
              && GoesTo(Aliases(old(db.rows)), Files(kept), metas, db.faults, old(db.ran), done)
              && (r.Ok? <==> GoesTo(Aliases(old(db.rows)), Files(kept), metas, db.faults, old(db.ran), |metas|))
  {
    ghost var tracked := Splits(db.rows, kept, recalled) && FileUnique(recalled) && PlanFits(recalled, metas);
    ghost var aliases, start := Aliases(db.rows), db.ran;
    managed := recalled;
    for i := 0 to |metas|
      invariant SavingOn(db, metas, i, tracked, recalled, kept, managed, aliases, news, start)
    {
      r, managed := SaveOne(db, metas, i, tracked, recalled, kept, managed, aliases, news, start);
      if r.Err? {
        return r, managed, i;
      }
    }
    return Ok(()), managed, |metas|;
  }

  // ---------- the plan ----------

  /** A new program that is to be stored. */
  predicate IsNew(e: Found, known: set<string>) {
    Runnable(e) && e.name !in known && Verifies(e) && e.digest.Ok?
  }

  ghost predicate NamesDiffer(metas: seq<Meta>) {
    forall i, j | 0 <= i < j < |metas| :: metas[i].fileName != metas[j].fileName
  }

  lemma {:induction false} NewMetasAre(entries: seq<Found>, known: set<string>, n: nat, m: Meta)
    requires n <= |entries| && forall i | 0 <= i < n :: !Blocks(entries[i], known)
    ensures m in NewMetas(entries, known, n) <==>
        exists i :: 0 <= i < n && IsNew(entries[i], known) && m == NewMeta(entries[i])
  {
    if n > 0 {
      NewMetasAre(entries, known, n - 1, m);
      assert !Blocks(entries[n - 1], known);
    }
  }

  lemma {:induction false} NewMetasDiffer(entries: seq<Found>, known: set<string>, n: nat)
    requires n <= |entries| && NamesDistinct(entries) && forall i | 0 <= i < n :: !Blocks(entries[i], known)
    ensures NamesDiffer(NewMetas(entries, known, n))
  {
    if n > 0 {
      NewMetasDiffer(entries, known, n - 1);
      var before := NewMetas(entries, known, n - 1);
      forall k | 0 <= k < |before| ensures before[k].fileName != entries[n - 1].name {
        NewMetasAre(entries, known, n - 1, before[k]);
        assert before[k] in before;
      }
    }
  }

  /** The metas to save: the new ones, and those of `known` under the names in `names`. */
  ghost predicate IsPlan(metas: seq<Meta>, added: seq<Meta>, known: map<string, Meta>, names: set<string>) {
    && NamesDiffer(metas) && names <= known.Keys
    && added <= metas && |metas| == |added| + |names|
    && (forall k | |added| <= k < |metas| :: metas[k].fileName in names && metas[k] == known[metas[k].fileName])
    && (forall m :: m in metas <==> m in added || (m.fileName in names && m == known[m.fileName]))
  }

  lemma PlanStep(metas: seq<Meta>, added: seq<Meta>, known: map<string, Meta>, names: set<string>, f: string)
    requires IsPlan(metas, added, known, names) && f in known && f !in names && known[f].fileName == f
    requires forall m | m in added :: m.fileName !in known
    ensures IsPlan(metas + [known[f]], added, known, names + {f})
  {
    forall k | 0 <= k < |metas| ensures metas[k].fileName != f {
      assert metas[k] in metas;
    }
  }

  /** The values of the map behind the new metas, in any order. */
  method AppendValues(added: seq<Meta>, known: map<string, Meta>) returns (metas: seq<Meta>)
    requires NamesDiffer(added) && forall m | m in added :: m.fileName !in known
    requires forall f | f in known :: known[f].fileName == f
    ensures IsPlan(metas, added, known, known.Keys)
  {
    metas := added;
    var todo := known.Keys;
    ghost var names: set<string> := {};
    while todo != {}
      invariant todo <= known.Keys && names == known.Keys - todo
      invariant IsPlan(metas, added, known, names)
      decreases todo
    {
      var f :| f in todo;
      PlanStep(metas, added, known, names, f);
      metas := metas + [known[f]];
      todo := todo - {f};
      names := names + {f};
    }
    assert names == known.Keys;
  }

  /** What the walk found out, up to the plan to save. */
  ghost predicate Walked(rows: Rows, entries: seq<Found>, before: map<string, Meta>, after: map<string, Meta>,
                         metas: seq<Meta>) {
    && Recalls(before, rows) && NamesDistinct(entries)
    && (forall i | 0 <= i < |entries| :: !Blocks(entries[i], before.Keys))
    && Marked(before, after, entries, |entries|)
    && IsPlan(metas, NewMetas(entries, before.Keys, |entries|), after, after.Keys)
  }

  /** A marked meta keeps all but its digest and its mark. */
  lemma MarkedMeta(before: map<string, Meta>, after: map<string, Meta>, entries: seq<Found>, f: string)
    requires Marked(before, after, entries, |entries|) && f in before && before[f].status == Invalid
    ensures after[f].fileName == before[f].fileName && after[f].id == before[f].id
    ensures after[f].status == Update || after[f] == before[f]
    ensures after[f].status == Update <==>
        exists i :: 0 <= i < |entries| && Runnable(entries[i]) && entries[i].name == f
  {
  }

  lemma PlanCanBeSaved(rows: Rows, entries: seq<Found>, before: map<string, Meta>, after: map<string, Meta>,
                       metas: seq<Meta>)
    requires Walked(rows, entries, before, after, metas)
    ensures PlanFits(rows, metas)
  {
    forall k | 0 <= k < |metas| ensures StatusFits(rows, metas[k]) {
      var m := metas[k];
      assert m in metas;
      NewMetasAre(entries, before.Keys, |entries|, m);
      if m !in NewMetas(entries, before.Keys, |entries|) {
        MarkedMeta(before, after, entries, m.fileName);
      }
    }
  }

  // ---------- the outcome ----------

  /** An entry that belongs into the table: an executable regular file that was known, or that verifies. */
  ghost predicate Belongs(e: Found, v: map<string, Row>) {
    && e.name != ".extsdb" && e.stat.Ok? && e.stat.value.isFile && e.stat.value.executable && e.digest.Ok?
    && (e.name in v || (e.verify.Ok? && e.verify.value.Some?))
  }

  /**
   * What a row has to say about an entry, field by field: of a known program what it said, with the
   * current digest; of a new one what the program says about itself, and the digest of the file if
   * the program names none.
   */
  ghost predicate SaysOf(row: Row, e: Found, v: map<string, Row>)
    requires Belongs(e, v)
  {
    && row.fileName == e.name
    && if e.name in v then
         && row.alias == v[e.name].alias && row.description == v[e.name].description
         && row.md5 == e.digest.value
       else
         var said := e.verify.value.value;
         && row.alias == said.alias && row.description == said.description
         && row.md5 == (match said.md5 case Some(named) => named case None => e.digest.value)
  }

  /** The row a save leaves for an entry. */
  function RowFor(e: Found, v: map<string, Row>): Row
    requires Belongs(e, v)
  {
    if e.name in v then v[e.name].(md5 := e.digest.value) else RowOf(NewMeta(e))
  }

  lemma RowForSays(e: Found, v: map<string, Row>)
    requires Belongs(e, v) && (e.name in v ==> v[e.name].fileName == e.name)
    ensures SaysOf(RowFor(e, v), e, v)
  {
  }

  /** The table holds exactly the programs that belong into it, with what it has to say about them. */
  ghost predicate Reconciled(v: map<string, Row>, entries: seq<Found>, after: map<string, Row>) {
    && (forall i | 0 <= i < |entries| && Belongs(entries[i], v) ::
          entries[i].name in after && SaysOf(after[entries[i].name], entries[i], v))
    && (forall f | f in after :: exists i :: 0 <= i < |entries| && entries[i].name == f && Belongs(entries[i], v))
  }

  lemma EntryIsSaved(rows: Rows, entries: seq<Found>, before: map<string, Meta>, after: map<string, Meta>,
                     metas: seq<Meta>, i: nat)
    requires FileUnique(rows) && Walked(rows, entries, before, after, metas)
    requires i < |entries| && Belongs(entries[i], View(rows))
    ensures var v := Saved(View(rows), metas, |metas|);
            entries[i].name in v && v[entries[i].name] == RowFor(entries[i], View(rows))
  {
    var e := entries[i];
    var m := if e.name in before then after[e.name] else NewMeta(e);
    if e.name in before {
      MarkedMeta(before, after, entries, e.name);
      ViewAt(rows, before[e.name].id);
    } else {
      NewMetasAre(entries, before.Keys, |entries|, m);
      assert IsNew(entries[i], before.Keys);
    }
    assert m in metas;
    var k :| 0 <= k < |metas| && metas[k] == m;
    SavedAt(View(rows), metas, |metas|, k);
  }

  /** Every file that is in the table at the end was in the plan. */
  lemma SavedIsPlanned(rows: Rows, entries: seq<Found>, before: map<string, Meta>, after: map<string, Meta>,
                       metas: seq<Meta>, f: string)
    returns (k: nat)
    requires Walked(rows, entries, before, after, metas) && f in Saved(View(rows), metas, |metas|)
    ensures k < |metas| && metas[k].fileName == f
  {
    if f in View(rows) {
      MarkedMeta(before, after, entries, f);
      assert after[f] in metas;
      k :| 0 <= k < |metas| && metas[k] == after[f];
    } else {
      k := SavedFrom(View(rows), metas, |metas|, f);
    }
  }

  /** A new program that is to be stored belongs into the table. */
  lemma NewBelongs(entries: seq<Found>, v: map<string, Row>, known: set<string>, m: Meta)
    requires v.Keys == known && forall i | 0 <= i < |entries| :: !Blocks(entries[i], known)
    requires m in NewMetas(entries, known, |entries|)
    ensures exists i :: 0 <= i < |entries| && entries[i].name == m.fileName && Belongs(entries[i], v)
  {
    NewMetasAre(entries, known, |entries|, m);
    var i :| 0 <= i < |entries| && IsNew(entries[i], known) && m == NewMeta(entries[i]);
    assert Belongs(entries[i], v);
  }

  /** A recalled program that is still there belongs into the table. */
  lemma KnownBelongs(entries: seq<Found>, v: map<string, Row>, before: map<string, Meta>, after: map<string, Meta>,
                     f: string)
    requires v.Keys == before.Keys && f in before && before[f].status == Invalid
    requires Marked(before, after, entries, |entries|) && after[f].status != Invalid
    ensures exists i :: 0 <= i < |entries| && entries[i].name == f && Belongs(entries[i], v)
  {
    MarkedMeta(before, after, entries, f);
    var i :| 0 <= i < |entries| && Runnable(entries[i]) && entries[i].name == f;
    assert Belongs(entries[i], v);
  }

  lemma SavedIsEntry(rows: Rows, entries: seq<Found>, before: map<string, Meta>, after: map<string, Meta>,
                     metas: seq<Meta>, f: string)
    requires FileUnique(rows) && Walked(rows, entries, before, after, metas) && f in Saved(View(rows), metas, |metas|)
    ensures exists i :: 0 <= i < |entries| && entries[i].name == f && Belongs(entries[i], View(rows))
  {
    var k := SavedIsPlanned(rows, entries, before, after, metas, f);
    var m := metas[k];
    SavedAt(View(rows), metas, |metas|, k);
    assert m in metas;
    if m in NewMetas(entries, before.Keys, |entries|) {
      NewBelongs(entries, View(rows), before.Keys, m);
    } else {
      KnownBelongs(entries, View(rows), before, after, f);
    }
  }

  lemma PlanReconciles(rows: Rows, entries: seq<Found>, before: map<string, Meta>, after: map<string, Meta>,
                       metas: seq<Meta>)
    requires FileUnique(rows) && Walked(rows, entries, before, after, metas)
    ensures Reconciled(View(rows), entries, Saved(View(rows), metas, |metas|))
  {
    var v := Saved(View(rows), metas, |metas|);
    forall i | 0 <= i < |entries| && Belongs(entries[i], View(rows))
      ensures entries[i].name in v && SaysOf(v[entries[i].name], entries[i], View(rows))
    {
      EntryIsSaved(rows, entries, before, after, metas, i);
      RowForSays(entries[i], View(rows));
    }
    forall f | f in v
      ensures exists i :: 0 <= i < |entries| && entries[i].name == f && Belongs(entries[i], View(rows))
    {
      SavedIsEntry(rows, entries, before, after, metas, f);
    }
  }

  /** The metas that are not invalid, in order. */
  function Live(metas: seq<Meta>, n: nat): seq<Meta>
    requires n <= |metas|
  {
    if n == 0 then []
    else Live(metas, n - 1) + (if metas[n - 1].status == Invalid then [] else [metas[n - 1]])
  }

  lemma {:induction false} LiveAre(metas: seq<Meta>, n: nat, m: Meta)
    requires n <= |metas|
    ensures m in Live(metas, n) <==> m.status != Invalid && exists k :: 0 <= k < n && metas[k] == m
  {
    if n > 0 {
      LiveAre(metas, n - 1, m);
    }
  }

  lemma {:induction false} LiveDiffer(metas: seq<Meta>, n: nat)
    requires n <= |metas| && NamesDiffer(metas)
    ensures NamesDiffer(Live(metas, n))
  {
    if n > 0 {
      LiveDiffer(metas, n - 1);
      var before := Live(metas, n - 1);
      forall k | 0 <= k < |before| ensures before[k].fileName != metas[n - 1].fileName {
        LiveAre(metas, n - 1, before[k]);
        assert before[k] in before;
      }
    }
  }

  /** The meta and the row say the same, field by field. */
  ghost predicate Agree(m: Meta, row: Row) {
    m.alias == row.alias && m.md5 == row.md5 && m.description == row.description && m.fileName == row.fileName
  }

  /** The returned list names each file of the table once, with what the table says about it. */
  ghost predicate ListsTable(metas: seq<Meta>, v: map<string, Row>) {
    && NamesDiffer(metas)
    && (forall m | m in metas :: m.fileName in v && Agree(m, v[m.fileName]))
    && (forall f | f in v :: exists m :: m in metas && m.fileName == f)
  }

  lemma LiveListsTable(rows: Rows, entries: seq<Found>, before: map<string, Meta>, after: map<string, Meta>,
                       metas: seq<Meta>)
    requires FileUnique(rows) && Walked(rows, entries, before, after, metas)
    ensures ListsTable(Live(metas, |metas|), Saved(View(rows), metas, |metas|))
  {
    var v := Saved(View(rows), metas, |metas|);
    var live := Live(metas, |metas|);
    LiveDiffer(metas, |metas|);
    forall m | m in live ensures m.fileName in v && Agree(m, v[m.fileName]) {
      LiveAre(metas, |metas|, m);
      var k :| 0 <= k < |metas| && metas[k] == m;
      SavedAt(View(rows), metas, |metas|, k);
    }
    forall f | f in v ensures exists m :: m in live && m.fileName == f {
      var k := SavedIsPlanned(rows, entries, before, after, metas, f);
      SavedAt(View(rows), metas, |metas|, k);
      LiveAre(metas, |metas|, metas[k]);
      assert metas[k] in live;
    }
  }

  // ---------- uniqueness ----------

  /** None of the new programs has a row among those that were not recalled. */
  ghost predicate NoneLost(kept: Rows, entries: seq<Found>, known: set<string>) {
    forall i | 0 <= i < |entries| && IsNew(entries[i], known) :: entries[i].name !in Files(kept)
  }

  /**
   * Once some of the plan is saved, the files are unique exactly when no program that was newly
   * stored has a row among those that were not recalled.
   */
  lemma UniqueIff(rows: Rows, after: Rows, kept: Rows, recalled: Rows, managed: Rows)
    requires FileUnique(rows) && Splits(rows, kept, recalled)
    requires Splits(after, kept, managed) && FileUnique(managed)
    ensures FileUnique(after) <==> Files(kept) !! Files(managed) - Files(recalled)
  {
    UniqueParts(rows, kept, recalled);
    UniqueParts(after, kept, managed);
  }

  /** A new program has this name. */
  ghost predicate NamesNew(entries: seq<Found>, known: set<string>, f: string) {
    exists i :: 0 <= i < |entries| && IsNew(entries[i], known) && entries[i].name == f
  }

  /** A file that was newly stored is that of a new program. */
  lemma StoredIsNew(recalled: Rows, entries: seq<Found>, before: map<string, Meta>, after: map<string, Meta>,
                    metas: seq<Meta>, managed: Rows, n: nat, f: string)
    requires Walked(recalled, entries, before, after, metas) && Saving(recalled, managed, metas, n)
    requires f in View(managed) && f !in View(recalled)
    ensures NamesNew(entries, Files(recalled), f)
  {
    var k := SavedFrom(View(recalled), metas, n, f);
    assert metas[k] in metas;
    NewMetasAre(entries, before.Keys, |entries|, metas[k]);
  }

  /** A completed save stored all new programs. */
  lemma NewIsStored(recalled: Rows, entries: seq<Found>, before: map<string, Meta>, after: map<string, Meta>,
                    metas: seq<Meta>, managed: Rows, i: nat)
    requires Walked(recalled, entries, before, after, metas) && Saving(recalled, managed, metas, |metas|)
    requires i < |entries| && IsNew(entries[i], Files(recalled))
    ensures entries[i].name in View(managed)
  {
    NewMetasAre(entries, before.Keys, |entries|, NewMeta(entries[i]));
    var k :| 0 <= k < |metas| && metas[k] == NewMeta(entries[i]);
    SavedAt(View(recalled), metas, |metas|, k);
  }

  /** The files stay unique if no new program lost its row, and a completed save keeps them unique only then. */
  lemma UniqueUnlessLost(rows: Rows, db: Rows, kept: Rows, recalled: Rows, managed: Rows, entries: seq<Found>,
                         before: map<string, Meta>, after: map<string, Meta>, metas: seq<Meta>, n: nat)
    requires FileUnique(rows) && Splits(rows, kept, recalled) && Splits(db, kept, managed)
    requires Walked(recalled, entries, before, after, metas) && Saving(recalled, managed, metas, n)
    ensures NoneLost(kept, entries, Files(recalled)) ==> FileUnique(db)
    ensures n == |metas| && FileUnique(db) ==> NoneLost(kept, entries, Files(recalled))
  {
    UniqueIff(rows, db, kept, recalled, managed);
    var stored := Files(managed) - Files(recalled);
    forall f | f in stored ensures NamesNew(entries, Files(recalled), f) {
      StoredIsNew(recalled, entries, before, after, metas, managed, n, f);
    }
    if n == |metas| {
      forall i | 0 <= i < |entries| && IsNew(entries[i], Files(recalled)) ensures entries[i].name in stored {
        NewIsStored(recalled, entries, before, after, metas, managed, i);
      }
    }
    LostIffShared(kept, entries, Files(recalled), stored);
  }

  /** When new programs are stored: if none of them lost its row, none stored shares a file, and the other way round. */
  lemma LostIffShared(kept: Rows, entries: seq<Found>, known: set<string>, stored: set<string>)
    requires forall f | f in stored :: NamesNew(entries, known, f)
    ensures NoneLost(kept, entries, known) ==> Files(kept) !! stored
    ensures Files(kept) !! stored
            && (forall i | 0 <= i < |entries| && IsNew(entries[i], known) :: entries[i].name in stored) ==>
              NoneLost(kept, entries, known)
  {
  }

  /** A row that was not recalled has a file of its own, which a list of the managed rows does not name. */
  lemma KeptIsNotListed(db: Rows, kept: Rows, managed: Rows, metas: seq<Meta>, id: nat)
    requires Splits(db, kept, managed) && FileUnique(db) && ListsTable(metas, View(managed)) && id in kept
    ensures !ListsTable(metas, View(db))
  {
    var f := kept[id].fileName;
    UniqueParts(db, kept, managed);
    FileOf(kept, id);
    FileOf(db, id);
    assert f !in View(managed);
    ListedIsManaged(metas, View(managed), View(db), f);
  }

  /** A list of the managed rows lists a table without double files exactly when there are no other rows. */
  lemma ListsAllIff(db: Rows, kept: Rows, managed: Rows, metas: seq<Meta>)
    requires Splits(db, kept, managed) && FileUnique(managed) && ListsTable(metas, View(managed))
    ensures FileUnique(db) && ListsTable(metas, View(db)) <==> kept == map[]
  {
    if kept == map[] {
      assert db == managed;
    } else if FileUnique(db) {
      var id :| id in kept;
      KeptIsNotListed(db, kept, managed, metas, id);
    }
  }

  lemma FileOf(rows: Rows, id: nat)
    requires id in rows
    ensures rows[id].fileName in Files(rows) && rows[id].fileName in View(rows)
  {
  }

  lemma ListedIsManaged(metas: seq<Meta>, managed: map<string, Row>, all: map<string, Row>, f: string)
    requires ListsTable(metas, managed)
    ensures f in all && ListsTable(metas, all) ==> f in managed
  {
  }

  /** The file of an entry has two rows, one of which at least can be read. */
  ghost predicate HasDouble(rows: Rows, missing: set<nat>, f: string) {
    exists a, b ::
      a in rows && b in rows && a != b && a !in missing && rows[a].fileName == f && rows[b].fileName == f
  }

  lemma DoubleIsKept(rows: Rows, missing: set<nat>, recalled: Rows, kept: Rows, f: string)
    requires IsRecall(recalled, rows, missing) && Splits(rows, kept, recalled)
    ensures HasDouble(rows, missing, f) ==> f in Files(recalled) && f in Files(kept)
  {
    if HasDouble(rows, missing, f) {
      var a, b :| a in rows && b in rows && a != b && a !in missing && rows[a].fileName == f && rows[b].fileName == f;
      assert a in kept || b in kept;
      assert a in kept ==> kept[a].fileName == f;
      assert b in kept ==> kept[b].fileName == f;
    }
  }

  lemma RecallSplits(rows: Rows, missing: set<nat>, recalled: Rows)
    requires IsRecall(recalled, rows, missing)
    ensures Splits(rows, rows - recalled.Keys, recalled)
    ensures rows - recalled.Keys == map[] <==> recalled == rows
  {
    assert rows == (rows - recalled.Keys) + recalled;
  }

  /**
   * A program that was renamed: the table knows its file under the alias "old", and it says "new".
   * When its row is not recalled, because the query fails or because that row cannot be read, it
   * gets a second one, which the schema allows.
   */
  lemma DoubleAfterLostRow(digest: string, description: string)
    ensures var rows := map[1 := Row("old", digest, description, "f")];
            var e := Found("f", Ok(FileStat(true, true)), Ok(digest), Ok(Some(Verified("new", None, description))));
            var after := Inserted(rows, 2, NewMeta(e));
            && IsRecall(map[], rows, Missing(rows, false, {})) && IsRecall(map[], rows, Missing(rows, true, {1}))
            && NewMetas([e], {}, 1) == [NewMeta(e)] && !NoneLost(rows, [e], {})
            && AliasUnique(rows) && FileUnique(rows) && AliasUnique(after) && !FileUnique(after)
  {
    var rows := map[1 := Row("old", digest, description, "f")];
    var e := Found("f", Ok(FileStat(true, true)), Ok(digest), Ok(Some(Verified("new", None, description))));
    var after := Inserted(rows, 2, NewMeta(e));
    assert NewMetas([e], {}, 0) == [];
    assert "f"[0] != DB_NAME[0];
    assert [e][0] == e && IsNew(e, {}) && rows[1].fileName in Files(rows);
    assert after == rows[2 := Row("new", digest, description, "f")];
    assert after[1].fileName == after[2].fileName;
    assert after[1].alias == "old" && after[2].alias == "new";
    assert "old"[0] != "new"[0];
  }

  // ---------- when a run succeeds ----------

  /** How many of the first `n` entries are new programs. */
  function NewCount(entries: seq<Found>, known: set<string>, n: nat): nat
    requires n <= |entries|
  {
    if n == 0 then 0 else NewCount(entries, known, n - 1) + (if IsNew(entries[n - 1], known) then 1 else 0)
  }

  function AliasOf(e: Found): string
    requires Verifies(e)
  {
    e.verify.value.value.alias
  }

  /** The new programs among the first `n` entries have aliases that differ, and are none of `aliases`. */
  ghost predicate NewAliasesFit(aliases: set<string>, entries: seq<Found>, known: set<string>, n: nat)
    requires n <= |entries|
  {
    && (forall i | 0 <= i < n && IsNew(entries[i], known) :: AliasOf(entries[i]) !in aliases)
    && (forall i, j | 0 <= i < j < n && IsNew(entries[i], known) && IsNew(entries[j], known) ::
          AliasOf(entries[i]) != AliasOf(entries[j]))
  }

  ghost predicate AliasesFit(aliases: set<string>, metas: seq<Meta>) {
    && (forall k | 0 <= k < |metas| :: metas[k].alias !in aliases)
    && (forall j, k | 0 <= j < k < |metas| :: metas[j].alias != metas[k].alias)
  }

  lemma AliasesFitMore(aliases: set<string>, metas: seq<Meta>, m: Meta)
    ensures AliasesFit(aliases, metas + [m]) <==>
              && AliasesFit(aliases, metas) && m.alias !in aliases
              && forall k | 0 <= k < |metas| :: metas[k].alias != m.alias
  {
    var more := metas + [m];
    assert more[|metas|] == m && forall k | 0 <= k < |metas| :: more[k] == metas[k];
  }

  lemma NewMetasStep(entries: seq<Found>, known: set<string>, n: nat)
    requires n < |entries| && forall i | 0 <= i < n + 1 :: !Blocks(entries[i], known)
    ensures NewMetas(entries, known, n + 1) ==
              if IsNew(entries[n], known) then NewMetas(entries, known, n) + [NewMeta(entries[n])]
              else NewMetas(entries, known, n)
  {
    assert !Blocks(entries[n], known);
  }

  lemma {:induction false} NewMetasCount(entries: seq<Found>, known: set<string>, n: nat)
    requires n <= |entries| && forall i | 0 <= i < n :: !Blocks(entries[i], known)
    ensures |NewMetas(entries, known, n)| == NewCount(entries, known, n)
  {
    if n > 0 {
      NewMetasCount(entries, known, n - 1);
      NewMetasStep(entries, known, n - 1);
    }
  }

  lemma NewAliasesFitMore(aliases: set<string>, entries: seq<Found>, known: set<string>, n: nat)
    requires n < |entries|
    ensures NewAliasesFit(aliases, entries, known, n + 1) <==>
              NewAliasesFit(aliases, entries, known, n)
              && (IsNew(entries[n], known) ==>
                    AliasOf(entries[n]) !in aliases
                    && forall i | 0 <= i < n && IsNew(entries[i], known) :: AliasOf(entries[i]) != AliasOf(entries[n]))
  {
  }

  lemma NewMetasFitStep(aliases: set<string>, entries: seq<Found>, known: set<string>, n: nat)
    requires n < |entries| && forall i | 0 <= i < n + 1 :: !Blocks(entries[i], known)
    requires AliasesFit(aliases, NewMetas(entries, known, n)) <==> NewAliasesFit(aliases, entries, known, n)
    ensures AliasesFit(aliases, NewMetas(entries, known, n + 1)) <==> NewAliasesFit(aliases, entries, known, n + 1)
  {
    NewMetasStep(entries, known, n);
    NewAliasesFitMore(aliases, entries, known, n);
    if IsNew(entries[n], known) {
      AliasesFitMore(aliases, NewMetas(entries, known, n), NewMeta(entries[n]));
      AliasUsedIff(entries, known, n, AliasOf(entries[n]));
    }
  }

  lemma {:induction false} NewMetasFitIff(aliases: set<string>, entries: seq<Found>, known: set<string>, n: nat)
    requires n <= |entries| && forall i | 0 <= i < n :: !Blocks(entries[i], known)
    ensures AliasesFit(aliases, NewMetas(entries, known, n)) <==> NewAliasesFit(aliases, entries, known, n)
  {
    if n > 0 {
      NewMetasFitIff(aliases, entries, known, n - 1);
      NewMetasFitStep(aliases, entries, known, n - 1);
    }
  }

  lemma NewMetaFrom(entries: seq<Found>, known: set<string>, n: nat, k: nat) returns (i: nat)
    requires n <= |entries| && forall i | 0 <= i < n :: !Blocks(entries[i], known)
    requires k < |NewMetas(entries, known, n)|
    ensures i < n && IsNew(entries[i], known) && NewMetas(entries, known, n)[k] == NewMeta(entries[i])
  {
    var m := NewMetas(entries, known, n)[k];
    NewMetasAre(entries, known, n, m);
    i :| 0 <= i < n && IsNew(entries[i], known) && m == NewMeta(entries[i]);
  }

  lemma NewMetaAt(entries: seq<Found>, known: set<string>, n: nat, i: nat) returns (k: nat)
    requires n <= |entries| && forall i | 0 <= i < n :: !Blocks(entries[i], known)
    requires i < n && IsNew(entries[i], known)
    ensures k < |NewMetas(entries, known, n)| && NewMetas(entries, known, n)[k] == NewMeta(entries[i])
  {
    var m := NewMeta(entries[i]);
    NewMetasAre(entries, known, n, m);
    k :| 0 <= k < |NewMetas(entries, known, n)| && NewMetas(entries, known, n)[k] == m;
  }

  lemma AliasUsedIff(entries: seq<Found>, known: set<string>, n: nat, alias: string)
    requires n <= |entries| && forall i | 0 <= i < n :: !Blocks(entries[i], known)
    ensures var metas := NewMetas(entries, known, n);
            (forall k | 0 <= k < |metas| :: metas[k].alias != alias) <==>
              forall i | 0 <= i < n && IsNew(entries[i], known) :: AliasOf(entries[i]) != alias
  {
    var metas := NewMetas(entries, known, n);
    if i :| 0 <= i < n && IsNew(entries[i], known) && AliasOf(entries[i]) == alias {
      var k := NewMetaAt(entries, known, n, i);
      assert metas[k].alias == alias;
    }
    if k :| 0 <= k < |metas| && metas[k].alias == alias {
      var i := NewMetaFrom(entries, known, n, k);
      assert IsNew(entries[i], known) && AliasOf(entries[i]) == alias;
    }
  }

  /** None of the statements from number `start` on fails for reasons of its own. */
  ghost predicate NoFaults(faults: nat -> bool, start: nat, n: nat) {
    forall k | start <= k < start + n :: !faults(k)
  }

  /**
   * What has to be stored fits the table: the aliases of the new programs are new and differ, and
   * none of the recalled programs that are still there has another row.
   */
  ghost predicate CanSave(rows: Rows, kept: Rows, entries: seq<Found>, known: set<string>) {
    && NewAliasesFit(Aliases(rows), entries, known, |entries|)
    && forall i | 0 <= i < |entries| && Runnable(entries[i]) && entries[i].name in known ::
         entries[i].name !in Files(kept)
  }

  lemma PlanIsNewFirst(recalled: Rows, entries: seq<Found>, before: map<string, Meta>, after: map<string, Meta>,
                       metas: seq<Meta>)
    requires Walked(recalled, entries, before, after, metas)
    ensures var added := NewMetas(entries, before.Keys, |entries|);
            && |metas| == |added| + |before|
            && (forall k | 0 <= k < |added| :: metas[k] == added[k] && metas[k].status == Normal)
            && (forall k | |added| <= k < |metas| :: metas[k].status != Normal)
            && NewFirst(metas, |added|)
  {
    var added := NewMetas(entries, before.Keys, |entries|);
    forall k | 0 <= k < |added| ensures metas[k] == added[k] && metas[k].status == Normal {
      NewMetasAre(entries, before.Keys, |entries|, added[k]);
      assert added[k] in added;
    }
    forall k | |added| <= k < |metas| ensures metas[k].status != Normal {
      MarkedMeta(before, after, entries, metas[k].fileName);
    }
  }

  /** The statements for the new programs meet no clash exactly when their aliases fit. */
  lemma NewAcceptedIff(aliases: set<string>, doubles: set<string>, metas: seq<Meta>, added: seq<Meta>)
    requires added <= metas && forall k | 0 <= k < |added| :: metas[k].status == Normal
    ensures (forall k | 0 <= k < |added| :: Accepts(aliases, doubles, metas, k)) <==> AliasesFit(aliases, added)
  {
    forall k | 0 <= k < |added|
      ensures Accepts(aliases, doubles, metas, k) <==>
                added[k].alias !in aliases && forall j | 0 <= j < k :: added[j].alias != added[k].alias
    {
      assert metas[k] == added[k];
      forall j | 0 <= j < k ensures metas[j] == added[j] && metas[j].alias in AliasesOf(metas, k) {
      }
    }
  }

  /** The statements for the recalled programs meet no clash exactly when those that are still there have one row. */
  lemma RecalledAcceptedIff(aliases: set<string>, doubles: set<string>, recalled: Rows, entries: seq<Found>,
                            before: map<string, Meta>, after: map<string, Meta>, metas: seq<Meta>, from: nat)
    requires Walked(recalled, entries, before, after, metas)
    requires from == |NewMetas(entries, before.Keys, |entries|)| <= |metas|
    ensures (forall k | from <= k < |metas| :: Accepts(aliases, doubles, metas, k)) <==>
              forall i | 0 <= i < |entries| && Runnable(entries[i]) && entries[i].name in Files(recalled) ::
                entries[i].name !in doubles
  {
    PlanIsNewFirst(recalled, entries, before, after, metas);
    if forall k | from <= k < |metas| :: Accepts(aliases, doubles, metas, k) {
      forall i | 0 <= i < |entries| && Runnable(entries[i]) && entries[i].name in Files(recalled)
        ensures entries[i].name !in doubles
      {
        MarkedMeta(before, after, entries, entries[i].name);
        assert after[entries[i].name] in metas;
        var k :| 0 <= k < |metas| && metas[k] == after[entries[i].name];
        assert Accepts(aliases, doubles, metas, k);
      }
    }
    if forall i | 0 <= i < |entries| && Runnable(entries[i]) && entries[i].name in Files(recalled) ::
         entries[i].name !in doubles {
      forall k | from <= k < |metas| ensures Accepts(aliases, doubles, metas, k) {
        MarkedMeta(before, after, entries, metas[k].fileName);
      }
    }
  }

  /** Every statement of the save goes through exactly when what is to be stored fits and no statement has a fault. */
  lemma SaveGoesIff(rows: Rows, kept: Rows, recalled: Rows, entries: seq<Found>, before: map<string, Meta>,
                    after: map<string, Meta>, metas: seq<Meta>, faults: nat -> bool, start: nat)
    requires Walked(recalled, entries, before, after, metas)
    ensures |metas| == NewCount(entries, Files(recalled), |entries|) + |Files(recalled)|
    ensures GoesTo(Aliases(rows), Files(kept), metas, faults, start, |metas|) <==>
              CanSave(rows, kept, entries, Files(recalled)) && NoFaults(faults, start, |metas|)
  {
    var known := Files(recalled);
    var added := NewMetas(entries, known, |entries|);
    PlanIsNewFirst(recalled, entries, before, after, metas);
    NewMetasCount(entries, known, |entries|);
    NewMetasFitIff(Aliases(rows), entries, known, |entries|);
    NewAcceptedIff(Aliases(rows), Files(kept), metas, added);
    RecalledAcceptedIff(Aliases(rows), Files(kept), recalled, entries, before, after, metas, |added|);
    GoesSplit(Aliases(rows), Files(kept), metas, faults, start, |added|);
  }

  /** What is to be stored fits, and none of the statements it takes, from number `start` on, has a fault. */
  ghost predicate Succeeds(rows: Rows, kept: Rows, recalled: Rows, entries: seq<Found>, faults: nat -> bool,
                           start: nat) {
    var known := Files(recalled);
    CanSave(rows, kept, entries, known) && NoFaults(faults, start, NewCount(entries, known, |entries|) + |known|)
  }

  lemma SucceedsIff(rows: Rows, kept: Rows, recalled: Rows, entries: seq<Found>, before: map<string, Meta>,
                    after: map<string, Meta>, metas: seq<Meta>, faults: nat -> bool, start: nat)
    requires Walked(recalled, entries, before, after, metas)
    ensures NewFirst(metas, |NewMetas(entries, before.Keys, |entries|)|)
    ensures GoesTo(Aliases(rows), Files(kept), metas, faults, start, |metas|) <==>
              Succeeds(rows, kept, recalled, entries, faults, start)
  {
    PlanIsNewFirst(recalled, entries, before, after, metas);
    SaveGoesIff(rows, kept, recalled, entries, before, after, metas, faults, start);
  }

  lemma GoesSplit(aliases: set<string>, doubles: set<string>, metas: seq<Meta>, faults: nat -> bool, start: nat, n: nat)
    requires n <= |metas|
    ensures GoesTo(aliases, doubles, metas, faults, start, |metas|) <==>
              && (forall k | 0 <= k < n :: Accepts(aliases, doubles, metas, k))
              && (forall k | n <= k < |metas| :: Accepts(aliases, doubles, metas, k))
              && NoFaults(faults, start, |metas|)
  {
    GoesToIff(aliases, doubles, metas, faults, start, |metas|);
    if GoesTo(aliases, doubles, metas, faults, start, |metas|) {
      forall k | 0 <= k < |metas| ensures Accepts(aliases, doubles, metas, k) {
        assert Goes(aliases, doubles, metas, faults, start, k);
      }
      forall m | start <= m < start + |metas| ensures !faults(m) {
        assert Goes(aliases, doubles, metas, faults, start, m - start);
      }
    }
  }

  /**
   * A program whose file was renamed, and which kept its alias, does not fit: it is to be stored
   * before the row of its old file is deleted, and the alias is still taken.
   */
  lemma RenamedFileDoesNotFit(alias: string, digest: string, description: string)
    ensures var rows := map[1 := Row(alias, digest, description, "old")];
            var e := Found("new", Ok(FileStat(true, true)), Ok(digest), Ok(Some(Verified(alias, None, description))));
            && AliasUnique(rows) && IsRecall(rows, rows, {}) && Files(rows) == {"old"}
            && !Blocks(e, Files(rows)) && !CanSave(rows, map[], [e], Files(rows))
  {
    var rows := map[1 := Row(alias, digest, description, "old")];
    var e := Found("new", Ok(FileStat(true, true)), Ok(digest), Ok(Some(Verified(alias, None, description))));
    assert rows[1].alias in Aliases(rows) && rows[1].fileName in Files(rows);
    assert "new"[0] != "old"[0] && "new"[0] != DB_NAME[0];
    assert [e][0] == e && IsNew(e, Files(rows));
  }

  // ---------- the whole run ----------

  /** Saving a plan made from the recalled rows and the directory, and when it succeeds. */
  method SavePlan(db: Db, metas: seq<Meta>, ghost entries: seq<Found>, ghost recalled: Rows, ghost kept: Rows,
                  ghost before: map<string, Meta>, ghost after: map<string, Meta>)
    returns (r: Result<(), Error>, ghost managed: Rows, ghost done: nat)
    requires db.Valid() && Splits(db.rows, kept, recalled) && FileUnique(recalled)
    requires Walked(recalled, entries, before, after, metas)
    modifies db
    ensures db.Valid() && done <= |metas| && (r.Ok? <==> done == |metas|)
    ensures Managing(db.rows, kept, recalled, managed, metas, done)
    ensures r.Ok? <==> Succeeds(old(db.rows), kept, recalled, entries, db.faults, old(db.ran))
  {
    PlanCanBeSaved(recalled, entries, before, after, metas);
    SucceedsIff(db.rows, kept, recalled, entries, before, after, metas, db.faults, db.ran);
    r, managed, done := SaveExtensions(db, metas, recalled, kept, |NewMetas(entries, before.Keys, |entries|)|);
  }

  /**
   * What a plan made from the recalled rows and the directory comes to when it is saved. `before`
   * and `after` are the metas that were recalled, without and with the marks of the walk.
   */
  method StorePlan(db: Db, metas: seq<Meta>, ghost entries: seq<Found>, ghost recalled: Rows, ghost kept: Rows,
                   ghost before: map<string, Meta>, ghost after: map<string, Meta>)
    returns (r: Result<(), Error>, ghost managed: Rows)
    requires db.Valid() && Splits(db.rows, kept, recalled) && FileUnique(recalled)
    requires Walked(recalled, entries, before, after, metas)
    modifies db
    ensures db.Valid() && Splits(db.rows, kept, managed) && FileUnique(managed)
    ensures FileUnique(old(db.rows)) ==>
              && (FileUnique(db.rows) <==> Files(kept) !! Files(managed) - Files(recalled))
              && (NoneLost(kept, entries, Files(recalled)) ==> FileUnique(db.rows))
              && (r.Ok? && FileUnique(db.rows) ==> NoneLost(kept, entries, Files(recalled)))
    ensures r.Ok? ==>
              && Reconciled(View(recalled), entries, View(managed)) && ListsTable(Live(metas, |metas|), View(managed))
              && (FileUnique(db.rows) && ListsTable(Live(metas, |metas|), View(db.rows)) <==> kept == map[])
    ensures r.Ok? <==> Succeeds(old(db.rows), kept, recalled, entries, db.faults, old(db.ran))
  {
    ghost var rows := db.rows;
    ghost var done;
    r, managed, done := SavePlan(db, metas, entries, recalled, kept, before, after);
    if FileUnique(rows) {
      UniqueIff(rows, db.rows, kept, recalled, managed);
      UniqueUnlessLost(rows, db.rows, kept, recalled, managed, entries, before, after, metas, done);
    }
    if r.Ok? {
      PlanReconciles(recalled, entries, before, after, metas);
      LiveListsTable(recalled, entries, before, after, metas);
      ListsAllIff(db.rows, kept, managed, Live(metas, |metas|));
    }
  }

  /**
   * `cgi_directory_list_extensions`. `dropped` are the rows that cannot be read, and `listed` says
   * whether the query of the table succeeded; the caller gets to know neither. The run works on
   * the rows it recalled, which become `managed`, and leaves the others as they are.
   */
  method DirectoryListExtensions(db: Db, readable: bool, entries: seq<Found>, dropped: set<nat>)
    returns (r: Result<seq<Meta>, Error>, ghost listed: bool, ghost recalled: Rows, ghost managed: Rows)
    requires db.Valid() && NamesDistinct(entries)
    modifies db
    ensures db.Valid()
    ensures listed <==> !db.faults(old(db.ran))
    ensures IsRecall(recalled, old(db.rows), Missing(old(db.rows), listed, dropped))
    ensures recalled == old(db.rows) <==>
              FileUnique(old(db.rows)) && Missing(old(db.rows), listed, dropped) !! old(db.rows).Keys
    // Whatever the outcome.
    ensures Splits(db.rows, old(db.rows) - recalled.Keys, managed) && FileUnique(managed)
    ensures FileUnique(old(db.rows)) ==>
              (FileUnique(db.rows) <==> Files(old(db.rows) - recalled.Keys) !! Files(managed) - Files(recalled))
    ensures FileUnique(old(db.rows)) && NoneLost(old(db.rows) - recalled.Keys, entries, Files(recalled)) ==>
              FileUnique(db.rows)
    ensures recalled == old(db.rows) ==> FileUnique(db.rows)
    ensures !readable || (exists i :: 0 <= i < |entries| && Blocks(entries[i], Files(recalled))) ==>
              r.Err? && db.rows == old(db.rows)
    // Whenever it succeeds.
    ensures r.Ok? ==> Reconciled(View(recalled), entries, View(managed)) && ListsTable(r.value, View(managed))
    ensures r.Ok? && FileUnique(old(db.rows)) ==>
              (FileUnique(db.rows) <==> NoneLost(old(db.rows) - recalled.Keys, entries, Files(recalled)))
    ensures r.Ok? ==> (FileUnique(db.rows) && ListsTable(r.value, View(db.rows)) <==> recalled == old(db.rows))
    ensures r.Ok? && !listed ==>
              (FileUnique(db.rows) && ListsTable(r.value, View(db.rows)) <==> old(db.rows) == map[])
    ensures r.Ok? && recalled == old(db.rows) ==> Reconciled(View(old(db.rows)), entries, View(db.rows))
    // When it succeeds: everything can be examined, what is to be stored fits, and no statement has a fault.
    ensures r.Ok? <==>
              && readable && (forall i | 0 <= i < |entries| :: !Blocks(entries[i], Files(recalled)))
              && Succeeds(old(db.rows), old(db.rows) - recalled.Keys, recalled, entries, db.faults, old(db.ran) + 1)
    // It fails when a program that is still there has two rows, one of which is read.
    ensures (exists i :: 0 <= i < |entries| && Runnable(entries[i])
                         && HasDouble(old(db.rows), Missing(old(db.rows), listed, dropped), entries[i].name)) ==>
              r.Err?
  {
    ghost var rows := db.rows;
    var known;
    known, recalled, listed := ListExtensionsFromDb(db, dropped);
    ghost var missing := Missing(rows, listed, dropped);
    ghost var kept := rows - recalled.Keys;
    RecallSplits(rows, missing, recalled);
    AllRecalledIff(recalled, rows, missing);
    managed := recalled;
    var added, marked := ListCgiDirectory(readable, entries, known);
    if added.Err? {
      return Err(added.error), listed, recalled, managed;
    }
    NewMetasDiffer(entries, known.Keys, |entries|);
    forall m | m in added.value ensures m.fileName !in marked {
      NewMetasAre(entries, known.Keys, |entries|, m);
    }
    forall f | f in marked ensures marked[f].fileName == f {
      MarkedMeta(known, marked, entries, f);
    }
    var metas := AppendValues(added.value, marked);
    var saved;
    saved, managed := StorePlan(db, metas, entries, recalled, kept, known, marked);
    if saved.Err? {
      return Err(saved.error), listed, recalled, managed;
    }
    forall i | 0 <= i < |entries| && Runnable(entries[i]) ensures !HasDouble(rows, missing, entries[i].name) {
      DoubleIsKept(rows, missing, recalled, kept, entries[i].name);
    }
    return Ok(Live(metas, |metas|)), listed, recalled, managed;
  }
}
