/**
 * The schema migrations of the check-in database. The `check_ins` table is
 * its list of columns (in `PRAGMA table_info` order) and its rows as maps from
 * column name to cell; the other tables are a set of names. `ALTER TABLE ...
 * ADD COLUMN` appends a column and gives every existing row the column's
 * default, and it fails on a name that already exists, which aborts the run.
 */
module Migrations {
  import opened Store

  /** A SQLite cell. */
  datatype Cell = Null | Int(n: int) | Text(s: string)

  /** The columns of the first release. */
  const V1Columns: seq<string> := ["id", "content", "media_files", "created_at", "ip_address"]

  /** The columns `create_tables` gives a new database: `approved` but no `review_reason`. */
  const SchemaColumns: seq<string> := V1Columns + ["nickname", "email", "qq", "url", "avatar", "love",
    "file_type", "archive_metadata", "approved", "reviewed_at"]

  /** Columns added by each migration, in order, with the value existing rows receive. */
  const V2Names: seq<string> := ["nickname", "email", "qq", "url", "avatar"]
  const V2Cells: map<string, Cell> :=
    map["nickname" := Text(DefaultNickname), "email" := Null, "qq" := Null, "url" := Null, "avatar" := Text(DefaultAvatar)]
  const V4Names: seq<string> := ["file_type", "archive_metadata"]
  const V4Cells: map<string, Cell> := map["file_type" := Text("media"), "archive_metadata" := Null]
  const V5Names: seq<string> := ["approved", "reviewed_at", "review_reason"]
  const V5Cells: map<string, Cell> := map["approved" := Int(1), "reviewed_at" := Null, "review_reason" := Null]

  const LoveCells: map<string, Cell> := map["love" := Int(0)]

  /** Everything the four migrations add to a first-release table. */
  const AddedNames: seq<string> := V2Names + ["love"] + V4Names + V5Names
  const AddedCells: map<string, Cell> := V2Cells + LoveCells + V4Cells + V5Cells

  const LikesTable: string := "likes"

  function ColumnSet(columns: seq<string>): set<string> {
    set c | c in columns
  }

  predicate Distinct(columns: seq<string>) {
    forall i, j :: 0 <= i < j < |columns| ==> columns[i] != columns[j]
  }

  /** Every migration marker column and the likes table are present. */
  predicate UpToDate(columns: seq<string>, tables: set<string>) {
    && "nickname" in columns && "love" in columns && "file_type" in columns
    && "approved" in columns && "review_reason" in columns
    && LikesTable in tables
  }

  /** Every row gains the given cells: `ALTER TABLE ... ADD COLUMN ... DEFAULT` on existing rows. */
  function Extend(rows: seq<map<string, Cell>>, cells: map<string, Cell>): (r: seq<map<string, Cell>>)
    ensures |r| == |rows|
    ensures forall i :: 0 <= i < |r| ==> r[i].Keys == rows[i].Keys + cells.Keys
  {
    seq(|rows|, i requires 0 <= i < |rows| => rows[i] + cells)
  }

  /** `UPDATE ... SET name = value WHERE name IS NULL`. */
  function Filled(rows: seq<map<string, Cell>>, name: string, value: Cell): (r: seq<map<string, Cell>>)
    requires forall i :: 0 <= i < |rows| ==> name in rows[i]
    ensures |r| == |rows|
    ensures forall i :: 0 <= i < |r| ==> r[i].Keys == rows[i].Keys
  {
    seq(|rows|, i requires 0 <= i < |rows| =>
      if rows[i][name] == Null then rows[i][name := value] else rows[i])
  }

  /** Two column additions are one addition of both. */
  lemma ExtendTwice(rows: seq<map<string, Cell>>, a: map<string, Cell>, b: map<string, Cell>)
    ensures Extend(Extend(rows, a), b) == Extend(rows, a + b)
  {
    var l, r := Extend(Extend(rows, a), b), Extend(rows, a + b);
    forall i | 0 <= i < |rows| ensures l[i] == r[i] {
      assert l[i] == rows[i] + a + b;
    }
  }

  /** A column added with a non-NULL default has no NULL to fill. */
  lemma FillAfterExtend(rows: seq<map<string, Cell>>, cells: map<string, Cell>, name: string, value: Cell)
    requires name in cells && cells[name] != Null
    ensures Filled(Extend(rows, cells), name, value) == Extend(rows, cells)
  {
    var e := Extend(rows, cells);
    var f := Filled(e, name, value);
    forall i | 0 <= i < |rows| ensures f[i] == e[i] {
      assert e[i] == rows[i] + cells;
      assert e[i][name] == cells[name];
    }
  }

  /** The five `ADD COLUMN` statements of V1 to V2 give every row the V2 cells. */
  lemma UserColumns(rows: seq<map<string, Cell>>)
    ensures Extend(Extend(Extend(Extend(Extend(rows,
      map["nickname" := Text(DefaultNickname)]), map["email" := Null]), map["qq" := Null]), map["url" := Null]),
      map["avatar" := Text(DefaultAvatar)]) == Extend(rows, V2Cells)
  {
    var m1 := map["nickname" := Text(DefaultNickname)];
    var m2 := map["email" := Null];
    var m3 := map["qq" := Null];
    var m4 := map["url" := Null];
    var m5 := map["avatar" := Text(DefaultAvatar)];
    ExtendTwice(rows, m1, m2);
    ExtendTwice(rows, m1 + m2, m3);
    ExtendTwice(rows, m1 + m2 + m3, m4);
    ExtendTwice(rows, m1 + m2 + m3 + m4, m5);
    assert m1 + m2 + m3 + m4 + m5 == V2Cells;
  }

  /** A first-release table has none of the V2 columns. */
  lemma FirstReleaseLacksUserColumns()
    ensures "nickname" !in V1Columns && "email" !in V1Columns && "qq" !in V1Columns
    ensures "url" !in V1Columns && "avatar" !in V1Columns
  {
  }

  /** After V2, a first-release table still lacks the V3 and V4 columns. */
  lemma FirstReleaseLacksLaterColumns()
    ensures "love" !in V1Columns + V2Names
    ensures "file_type" !in V1Columns + V2Names + ["love"]
    ensures "archive_metadata" !in V1Columns + V2Names + ["love"]
  {
  }

  /** After V4, a first-release table still lacks the V5 columns. */
  lemma FirstReleaseLacksModerationColumns()
    ensures "approved" !in V1Columns + V2Names + ["love"] + V4Names
    ensures "reviewed_at" !in V1Columns + V2Names + ["love"] + V4Names
    ensures "review_reason" !in V1Columns + V2Names + ["love"] + V4Names
    ensures V1Columns + AddedNames == V1Columns + V2Names + ["love"] + V4Names + V5Names
  {
  }

  /** The column facts the table of `create_tables` meets at each migration. */
  lemma SchemaTableColumns()
    ensures "nickname" in SchemaColumns && "love" in SchemaColumns && "file_type" in SchemaColumns
    ensures "approved" in SchemaColumns && "review_reason" !in SchemaColumns
  {
  }

  class Database {
    /** The columns of `check_ins`, in order. */
    var columns: seq<string>
    /** The rows of `check_ins`, each a cell per column. */
    var rows: seq<map<string, Cell>>
    /** The names of the other tables. */
    var tables: set<string>

    ghost predicate Valid()
      reads this
    {
      && Distinct(columns)
      && forall i :: 0 <= i < |rows| ==> rows[i].Keys == ColumnSet(columns)
    }

    constructor (columns: seq<string>, rows: seq<map<string, Cell>>, tables: set<string>)
      requires Distinct(columns)
      requires forall i :: 0 <= i < |rows| ==> rows[i].Keys == ColumnSet(columns)
      ensures Valid()
      ensures this.columns == columns && this.rows == rows && this.tables == tables
    {
      this.columns := columns;
      this.rows := rows;
      this.tables := tables;
    }

    /** `ALTER TABLE check_ins ADD COLUMN name ... DEFAULT default`; false where SQLite raises. */
    method AddColumn(name: string, default: Cell) returns (ok: bool)
      requires Valid()
      modifies this
      ensures Valid()
      ensures ok <==> name !in old(columns)
      ensures tables == old(tables)
      ensures ok ==> columns == old(columns) + [name]
      ensures ok ==> rows == Extend(old(rows), map[name := default])
      ensures !ok ==> columns == old(columns) && rows == old(rows)
    {
      if name in columns {
        ok := false;
      } else {
        ok := true;
        columns := columns + [name];
        rows := Extend(rows, map[name := default]);
      }
    }

    /** `UPDATE check_ins SET name = value WHERE name IS NULL`. */
    method FillNull(name: string, value: Cell)
      requires Valid() && name in columns
      modifies this
      ensures Valid()
      ensures columns == old(columns) && tables == old(tables)
      ensures rows == Filled(old(rows), name, value)
    {
      rows := Filled(rows, name, value);
    }

    /** `CREATE TABLE IF NOT EXISTS likes (... UNIQUE(checkin_id, ip_address) ...)`. */
    method CreateLikesTable()
      modifies this
      ensures columns == old(columns) && rows == old(rows)
      ensures tables == old(tables) + {LikesTable}
    {
      tables := tables + {LikesTable};
    }

    /** V1 to V2: the user-information columns, guarded by `nickname`. */
    method MigrateV1ToV2() returns (ok: bool)
      requires Valid()
      modifies this
      ensures Valid() && tables == old(tables)
      ensures ok <==> ("nickname" in old(columns) ||
        ("email" !in old(columns) && "qq" !in old(columns) && "url" !in old(columns) && "avatar" !in old(columns)))
      ensures "nickname" in old(columns) ==> columns == old(columns) && rows == old(rows)
      ensures "nickname" in columns
      ensures ok && "nickname" !in old(columns) ==> columns == old(columns) + V2Names && rows == Extend(old(rows), V2Cells)
    {
      if "nickname" in columns {
        return true;
      }
      ghost var before, cols := rows, columns;
      ok := AddColumn("nickname", Text(DefaultNickname));
      assert "nickname" in columns;
      if ok { ok := AddColumn("email", Null); }
      assert ok <==> "email" !in cols;
      if ok { ok := AddColumn("qq", Null); }
      assert ok <==> "email" !in cols && "qq" !in cols;
      if ok { ok := AddColumn("url", Null); }
      assert ok <==> "email" !in cols && "qq" !in cols && "url" !in cols;
      if ok { ok := AddColumn("avatar", Text(DefaultAvatar)); }
      if ok {
        assert columns == cols + V2Names;
        UserColumns(before);
        FillAfterExtend(before, V2Cells, "nickname", Text(DefaultNickname));
        FillNull("nickname", Text(DefaultNickname));
        FillAfterExtend(before, V2Cells, "avatar", Text(DefaultAvatar));
        FillNull("avatar", Text(DefaultAvatar));
      }
    }

    /** V2 to V3: the `love` counter and the likes table, guarded by `love`. */
    method MigrateV2ToV3()
      requires Valid()
      modifies this
      ensures Valid()
      ensures "love" in old(columns) ==> columns == old(columns) && rows == old(rows) && tables == old(tables)
      ensures "love" !in old(columns) ==>
        && columns == old(columns) + ["love"]
        && rows == Extend(old(rows), LoveCells)
        && tables == old(tables) + {LikesTable}
    {
      if "love" in columns {
        return;
      }
      ghost var before := rows;
      var added := AddColumn("love", Int(0));
      FillAfterExtend(before, LoveCells, "love", Int(0));
      FillNull("love", Int(0));
      CreateLikesTable();
    }

    /** The likes table is created only when it is missing. */
    method EnsureLikesTable()
      modifies this
      ensures columns == old(columns) && rows == old(rows)
      ensures tables == old(tables) + {LikesTable}
    {
      if LikesTable in tables {
        return;
      }
      CreateLikesTable();
    }

    /** V3 to V4: archive support, guarded by `file_type`. */
    method MigrateV3ToV4() returns (ok: bool)
      requires Valid()
      modifies this
      ensures Valid() && tables == old(tables)
      ensures ok <==> "file_type" in old(columns) || "archive_metadata" !in old(columns)
      ensures "file_type" in old(columns) ==> columns == old(columns) && rows == old(rows)
      ensures "file_type" in columns
      ensures ok && "file_type" !in old(columns) ==> columns == old(columns) + V4Names && rows == Extend(old(rows), V4Cells)
    {
      if "file_type" in columns {
        return true;
      }
      ghost var before := rows;
      var m1 := map["file_type" := Text("media")];
      var added := AddColumn("file_type", Text("media"));
      FillAfterExtend(before, m1, "file_type", Text("media"));
      FillNull("file_type", Text("media"));
      ok := AddColumn("archive_metadata", Null);
      if ok {
        ExtendTwice(before, m1, map["archive_metadata" := Null]);
        assert m1 + map["archive_metadata" := Null] == V4Cells;
      }
    }

    /**
     * V4 to V5: moderation, guarded by `approved`; a table that already has
     * `approved` only gains a missing `review_reason`.
     */
    method MigrateV4ToV5() returns (ok: bool)
      requires Valid()
      modifies this
      ensures Valid() && tables == old(tables)
      ensures ok <==> "approved" in old(columns) || ("reviewed_at" !in old(columns) && "review_reason" !in old(columns))
      ensures "approved" in old(columns) && "review_reason" in old(columns) ==> columns == old(columns) && rows == old(rows)
      ensures "approved" in old(columns) && "review_reason" !in old(columns) ==>
        columns == old(columns) + ["review_reason"] && rows == Extend(old(rows), map["review_reason" := Null])
      ensures "approved" in columns
      ensures ok ==> "review_reason" in columns
      ensures ok && "approved" !in old(columns) ==> columns == old(columns) + V5Names && rows == Extend(old(rows), V5Cells)
    {
      if "approved" in columns {
        if "review_reason" !in columns {
          ok := AddColumn("review_reason", Null);
        }
        return true;
      }
      ghost var before := rows;
      var m1 := map["approved" := Int(1)];
      ok := AddColumn("approved", Int(1));
      FillAfterExtend(before, m1, "approved", Int(1));
      FillNull("approved", Int(1));
      if ok { ok := AddColumn("reviewed_at", Null); }
      if ok { ok := AddColumn("review_reason", Null); }
      if ok {
        ExtendTwice(before, m1, map["reviewed_at" := Null]);
        ExtendTwice(before, m1 + map["reviewed_at" := Null], map["review_reason" := Null]);
        assert m1 + map["reviewed_at" := Null] + map["review_reason" := Null] == V5Cells;
      }
    }

    /**
     * `run_migrations`: the four migrations and the likes-table guard in
     * order; the first failing statement ends the run (`ok` false) and keeps
     * the columns already added.
     */
    method RunMigrations() returns (ok: bool)
      requires Valid()
      modifies this
      ensures Valid()
      ensures ok ==> UpToDate(columns, tables)
      ensures UpToDate(old(columns), old(tables)) ==>
        ok && columns == old(columns) && rows == old(rows) && tables == old(tables)
      ensures old(columns) == V1Columns ==>
        && ok
        && columns == V1Columns + AddedNames
        && rows == Extend(old(rows), AddedCells)
        && tables == old(tables) + {LikesTable}
      ensures old(columns) == SchemaColumns ==>
        && ok
        && columns == SchemaColumns + ["review_reason"]
        && rows == Extend(old(rows), map["review_reason" := Null])
        && tables == old(tables) + {LikesTable}
    {
      ghost var before, tablesBefore := rows, tables;
      ghost var fromV1, fromSchema := columns == V1Columns, columns == SchemaColumns;
      if fromV1 {
        FirstReleaseLacksUserColumns();
        FirstReleaseLacksLaterColumns();
        FirstReleaseLacksModerationColumns();
      }
      if fromSchema {
        SchemaTableColumns();
      }
      ok := MigrateV1ToV2();
      if ok {
        MigrateV2ToV3();
        ok := MigrateV3ToV4();
      }
      if fromV1 {
        ExtendTwice(before, V2Cells, LoveCells);
        ExtendTwice(before, V2Cells + LoveCells, V4Cells);
      }
      if ok { ok := MigrateV4ToV5(); }
      if fromV1 {
        ExtendTwice(before, V2Cells + LoveCells + V4Cells, V5Cells);
      }
      if ok { EnsureLikesTable(); }
    }
  }
}
