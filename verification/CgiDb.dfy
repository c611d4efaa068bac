/** The extension table: rows keyed by id, with a unique alias, and its statements. */
module CgiDb {
  import opened Common

  datatype Status = Normal | Update | Invalid

  datatype Meta = Meta(id: nat, alias: string, md5: string, description: string, fileName: string, status: Status)

  datatype Row = Row(alias: string, md5: string, description: string, fileName: string)

  type Rows = map<nat, Row>

  function RowOf(m: Meta): Row {
    Row(m.alias, m.md5, m.description, m.fileName)
  }

  function MetaOf(id: nat, row: Row): Meta {
    Meta(id, row.alias, row.md5, row.description, row.fileName, Normal)
  }

  function Files(rows: Rows): set<string> {
    set id | id in rows :: rows[id].fileName
  }

  function Aliases(rows: Rows): set<string> {
    set id | id in rows :: rows[id].alias
  }

  /** The schema's constraint. */
  predicate AliasUnique(rows: Rows) {
    forall a, b | a in rows && b in rows && a != b :: rows[a].alias != rows[b].alias
  }

  /** No file has two rows; the schema does not say so. */
  predicate FileUnique(rows: Rows) {
    forall a, b | a in rows && b in rows && a != b :: rows[a].fileName != rows[b].fileName
  }

  // ---------- the statements ----------

  function Inserted(rows: Rows, id: nat, m: Meta): Rows {
    rows[id := RowOf(m)]
  }

  /** `update ... where filename = ?`: all rows of the file. */
  function Updated(rows: Rows, m: Meta): Rows {
    map id | id in rows :: if rows[id].fileName == m.fileName then RowOf(m) else rows[id]
  }

  /** `delete ... where id = ? and filename = ?` */
  function Deleted(rows: Rows, m: Meta): Rows {
    if m.id in rows && rows[m.id].fileName == m.fileName then rows - {m.id} else rows
  }

  // ---------- the table by file name ----------

  ghost function IdOf(rows: Rows, f: string): (id: nat)
    requires f in Files(rows)
    ensures id in rows && rows[id].fileName == f
  {
    var id :| id in rows && rows[id].fileName == f;
    id
  }

  /** What the table says about each file. */
  ghost function View(rows: Rows): (v: map<string, Row>)
    ensures v.Keys == Files(rows)
    ensures forall f | f in v :: v[f].fileName == f
  {
    map f | f in Files(rows) :: rows[IdOf(rows, f)]
  }

  lemma ViewAt(rows: Rows, id: nat)
    requires FileUnique(rows) && id in rows
    ensures rows[id].fileName in View(rows) && View(rows)[rows[id].fileName] == rows[id]
  {
    assert rows[id].fileName in Files(rows);
    assert IdOf(rows, rows[id].fileName) == id;
  }

  /** Two tables without double files agree when each row of the one is one of the other. */
  lemma ViewFrom(rows: Rows, v: map<string, Row>)
    requires FileUnique(rows)
    requires forall id | id in rows :: rows[id].fileName in v && v[rows[id].fileName] == rows[id]
    requires forall f | f in v :: f in Files(rows)
    ensures View(rows) == v
  {
    forall f | f in v ensures View(rows)[f] == v[f] {
      assert rows[IdOf(rows, f)].fileName == f;
    }
  }

  lemma InsertView(rows: Rows, id: nat, m: Meta)
    requires FileUnique(rows) && id !in rows && m.fileName !in Files(rows)
    ensures FileUnique(Inserted(rows, id, m))
    ensures View(Inserted(rows, id, m)) == View(rows)[m.fileName := RowOf(m)]
  {
    var after := Inserted(rows, id, m);
    forall a | a in rows ensures rows[a].fileName != m.fileName {
      assert rows[a].fileName in Files(rows);
    }
    forall a | a in after
      ensures after[a].fileName in View(rows)[m.fileName := RowOf(m)]
      ensures View(rows)[m.fileName := RowOf(m)][after[a].fileName] == after[a]
    {
      if a != id {
        ViewAt(rows, a);
      }
    }
    forall f | f in View(rows)[m.fileName := RowOf(m)] ensures f in Files(after) {
      if f == m.fileName {
        assert after[id].fileName == f;
      } else {
        assert after[IdOf(rows, f)].fileName == f;
      }
    }
    ViewFrom(after, View(rows)[m.fileName := RowOf(m)]);
  }

  lemma UpdateView(rows: Rows, m: Meta)
    requires FileUnique(rows)
    ensures FileUnique(Updated(rows, m))
    ensures View(Updated(rows, m)) ==
              if m.fileName in View(rows) then View(rows)[m.fileName := RowOf(m)] else View(rows)
  {
    var after := Updated(rows, m);
    var v := if m.fileName in View(rows) then View(rows)[m.fileName := RowOf(m)] else View(rows);
    forall a | a in after ensures after[a].fileName in v && v[after[a].fileName] == after[a] {
      ViewAt(rows, a);
    }
    forall f | f in v ensures f in Files(after) {
      assert after[IdOf(rows, f)].fileName == f;
    }
    ViewFrom(after, v);
  }

  lemma DeleteView(rows: Rows, m: Meta)
    requires FileUnique(rows)
    ensures FileUnique(Deleted(rows, m))
    ensures View(Deleted(rows, m)) ==
              if m.id in rows && rows[m.id].fileName == m.fileName then View(rows) - {m.fileName} else View(rows)
  {
    if m.id in rows && rows[m.id].fileName == m.fileName {
      var after := Deleted(rows, m);
      var v := View(rows) - {m.fileName};
      forall a | a in after ensures after[a].fileName in v && v[after[a].fileName] == after[a] {
        ViewAt(rows, a);
      }
      forall f | f in v ensures f in Files(after) {
        assert after[IdOf(rows, f)].fileName == f;
      }
      ViewFrom(after, v);
    }
  }

  // ---------- two parts of a table ----------

  /** The table consists of rows that are left alone and rows that are worked on. */
  ghost predicate Splits(rows: Rows, kept: Rows, managed: Rows) {
    kept.Keys !! managed.Keys && rows == kept + managed
  }

  /** Files are unique exactly when they are in each part, and the parts have none in common. */
  lemma UniqueParts(rows: Rows, kept: Rows, managed: Rows)
    requires Splits(rows, kept, managed)
    ensures FileUnique(rows) <==> FileUnique(kept) && FileUnique(managed) && Files(kept) !! Files(managed)
  {
    forall id | id in kept ensures rows[id] == kept[id] {
    }
    forall id | id in managed ensures rows[id] == managed[id] {
    }
    if FileUnique(kept) && FileUnique(managed) && Files(kept) !! Files(managed) {
      forall a, b | a in rows && b in rows && a != b ensures rows[a].fileName != rows[b].fileName {
        assert a in kept ==> rows[a].fileName in Files(kept);
        assert b in kept ==> rows[b].fileName in Files(kept);
        assert a in managed ==> rows[a].fileName in Files(managed);
        assert b in managed ==> rows[b].fileName in Files(managed);
      }
    }
  }

  lemma SplitInsert(rows: Rows, kept: Rows, managed: Rows, id: nat, m: Meta)
    requires Splits(rows, kept, managed) && id !in rows
    ensures Splits(Inserted(rows, id, m), kept, Inserted(managed, id, m))
  {
  }

  lemma SplitUpdate(rows: Rows, kept: Rows, managed: Rows, m: Meta)
    requires Splits(rows, kept, managed) && m.fileName !in Files(kept)
    ensures Splits(Updated(rows, m), kept, Updated(managed, m))
  {
    forall id | id in kept ensures Updated(rows, m)[id] == kept[id] {
      assert kept[id].fileName in Files(kept);
    }
    assert Updated(rows, m) == kept + Updated(managed, m);
  }

  lemma SplitDelete(rows: Rows, kept: Rows, managed: Rows, m: Meta)
    requires Splits(rows, kept, managed) && m.id in managed
    ensures Splits(Deleted(rows, m), kept, Deleted(managed, m))
  {
    assert rows - {m.id} == kept + (managed - {m.id});
  }

  /** An update of a file that has two rows would give both the same alias, which the schema forbids. */
  lemma DoubleUpdateFails(rows: Rows, m: Meta, a: nat, b: nat)
    requires a in rows && b in rows && a != b && rows[a].fileName == rows[b].fileName == m.fileName
    ensures !AliasUnique(Updated(rows, m))
  {
    assert Updated(rows, m)[a].alias == Updated(rows, m)[b].alias;
  }

  // ---------- the database ----------

  /** An update that changes no alias keeps the aliases unique. */
  lemma SameAliasUpdate(rows: Rows, m: Meta, id: nat)
    requires AliasUnique(rows) && id in rows && rows[id].fileName == m.fileName && rows[id].alias == m.alias
    requires forall a | a in rows && rows[a].fileName == m.fileName :: a == id
    ensures AliasUnique(Updated(rows, m)) && Aliases(Updated(rows, m)) == Aliases(rows)
  {
    forall a | a in rows ensures Updated(rows, m)[a].alias == rows[a].alias {
    }
    forall x | x in Aliases(rows) ensures x in Aliases(Updated(rows, m)) {
      var a :| a in rows && rows[a].alias == x;
      assert Updated(rows, m)[a].alias == x;
    }
  }

  lemma InsertedAliases(rows: Rows, id: nat, m: Meta)
    requires id !in rows
    ensures Aliases(Inserted(rows, id, m)) == Aliases(rows) + {m.alias}
  {
    var after := Inserted(rows, id, m);
    assert after[id].alias == m.alias;
    forall a | a in rows ensures after[a].alias in Aliases(after) && after[a] == rows[a] {
    }
  }

  /** The database; statement number `n` fails for reasons of its own when `faults(n)` says so. */
  class Db {
    var rows: Rows
    const faults: nat -> bool
    /** How many statements were run so far. */
    var ran: nat

    ghost predicate Valid()
      reads this
    {
      AliasUnique(rows)
    }

    constructor (faults: nat -> bool)
      ensures Valid() && rows == map[] && ran == 0 && this.faults == faults
    {
      rows, ran, this.faults := map[], 0, faults;
    }

    method Faulty() returns (b: bool)
      modifies this`ran
      ensures b == faults(old(ran)) && ran == old(ran) + 1
    {
      b := faults(ran);
      ran := ran + 1;
    }

    /** The id of the next row: one more than the largest. */
    method NextId() returns (next: nat)
      ensures next >= 1 && forall id | id in rows :: id < next
    {
      next := 1;
      var todo := rows.Keys;
      while todo != {}
        invariant todo <= rows.Keys && next >= 1
        invariant forall id | id in rows && id !in todo :: id < next
        decreases todo
      {
        var id :| id in todo;
        next := if id < next then next else id + 1;
        todo := todo - {id};
      }
    }

    /**
     * The rows the query gives, each once, in any order. A row that cannot be read, whose id is in
     * `dropped`, is passed over without an error.
     */
    method ListExtensions(dropped: set<nat>) returns (r: Result<seq<Meta>, Error>)
      requires Valid()
      modifies this`ran
      ensures ran == old(ran) + 1 && (r.Err? <==> faults(old(ran)))
      ensures r.Ok? ==>
                forall k | 0 <= k < |r.value| ::
                  var id := r.value[k].id;
                  id in rows && id !in dropped && r.value[k] == MetaOf(id, rows[id])
      ensures r.Ok? ==> forall j, k | 0 <= j < k < |r.value| :: r.value[j].id != r.value[k].id
      ensures r.Ok? ==>
                forall id | id in rows && id !in dropped :: exists k :: 0 <= k < |r.value| && r.value[k].id == id
    {
      var faulty := Faulty();
      if faulty {
        return Err(Io(1));
      }
      var metas: seq<Meta> := [];
      var todo := rows.Keys;
      while todo != {}
        invariant todo <= rows.Keys
        invariant forall j, k | 0 <= j < k < |metas| :: metas[j].id != metas[k].id
        invariant forall k | 0 <= k < |metas| ::
                    var id := metas[k].id;
                    id in rows - todo && id !in dropped && metas[k] == MetaOf(id, rows[id])
        invariant forall id | id in rows && id !in todo && id !in dropped ::
                    exists k :: 0 <= k < |metas| && metas[k].id == id
        decreases todo
      {
        var id :| id in todo;
        todo := todo - {id};
        if id !in dropped {
          ghost var before := metas;
          metas := metas + [MetaOf(id, rows[id])];
          assert metas[|metas| - 1].id == id;
          assert forall k | 0 <= k < |before| :: metas[k] == before[k];
        }
      }
      return Ok(metas);
    }

    /** Fails when a row has the alias already. */
    method InsertExtensionMeta(m: Meta) returns (r: Result<(), Error>, ghost id: nat)
      requires Valid()
      modifies this
      ensures Valid() && ran == old(ran) + 1
      ensures r.Err? <==> faults(old(ran)) || m.alias in Aliases(old(rows))
      ensures r.Ok? ==> id !in old(rows) && rows == Inserted(old(rows), id, m)
      ensures r.Err? ==> rows == old(rows)
    {
      id := 0;
      var faulty := Faulty();
      if faulty || exists id | id in rows :: rows[id].alias == m.alias {
        return Err(Io(2)), id;
      }
      var next := NextId();
      id := next;
      rows := rows[next := RowOf(m)];
      return Ok(()), id;
    }

    /** Fails when two rows would get the same alias. */
    method UpdateExtensionMeta(m: Meta) returns (r: Result<(), Error>)
      requires Valid()
      modifies this
      ensures Valid() && ran == old(ran) + 1
      ensures r.Err? <==> faults(old(ran)) || !AliasUnique(Updated(old(rows), m))
      ensures r.Ok? ==> rows == Updated(old(rows), m)
      ensures r.Err? ==> rows == old(rows)
    {
      var faulty := Faulty();
      if faulty || !AliasUnique(Updated(rows, m)) {
        return Err(Io(3));
      }
      rows := Updated(rows, m);
      return Ok(());
    }

    method DeleteExtensionMeta(m: Meta) returns (r: Result<(), Error>)
      requires Valid()
      modifies this
      ensures Valid() && ran == old(ran) + 1
      ensures r.Err? <==> faults(old(ran))
      ensures r.Ok? ==> rows == Deleted(old(rows), m)
      ensures r.Err? ==> rows == old(rows)
    {
      var faulty := Faulty();
      if faulty {
        return Err(Io(4));
      }
      rows := Deleted(rows, m);
      return Ok(());
    }
  }
}
