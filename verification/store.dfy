/**
 * The SQLite database of check-ins as in-memory state: the `check_ins` table
 * as a sequence of rows in rowid order, the `likes` table as a set of
 * `(checkin_id, ip_address)` pairs (its UNIQUE constraint makes it a set), and
 * the AUTOINCREMENT counter.
 */
module Store {
  import opened Wrappers
  import opened Lists

  const DefaultNickname: string := "用户0721"
  const DefaultAvatar: string := "🥰"

  /** The `media_files` column: a JSON array of URLs, or text that is not one. */
  datatype MediaField = Urls(urls: seq<string>) | Unparsable

  /** One row of `check_ins`; `None` is SQL NULL. */
  datatype Row = Row(
    id: int,
    content: string,
    mediaFiles: MediaField,
    createdAt: string,
    ipAddress: Option<string>,
    nickname: Option<string>,
    email: Option<string>,
    qq: Option<string>,
    url: Option<string>,
    avatar: Option<string>,
    love: Option<int>,
    approved: Option<int>,
    reviewedAt: Option<string>,
    reviewReason: Option<string>,
    fingerprint: Option<string>)

  /** Ids strictly increase along the table (rowid order, ids never reused). */
  predicate IdsIncreasing(rows: seq<Row>) {
    forall i, j :: 0 <= i < j < |rows| ==> rows[i].id < rows[j].id
  }

  predicate HasId(rows: seq<Row>, id: int) {
    exists i :: 0 <= i < |rows| && rows[i].id == id
  }

  /** `SELECT ... WHERE id = ?`: the first row with that id. */
  function Lookup(rows: seq<Row>, id: int): (r: Option<Row>)
    ensures r.None? <==> !HasId(rows, id)
    ensures r.Some? ==> r.value.id == id && r.value in rows
  {
    if rows == [] then None
    else if rows[0].id == id then Some(rows[0])
    else
      var r := Lookup(rows[1..], id);
      assert forall i :: 0 < i < |rows| ==> rows[i] == rows[1..][i - 1];
      if r.None? then
        assert !HasId(rows, id) by {
          forall i | 0 <= i < |rows| ensures rows[i].id != id {
            if i > 0 { assert rows[i] == rows[1..][i - 1]; }
          }
        }
        r
      else
        assert HasId(rows, id) by {
          var i :| 0 <= i < |rows[1..]| && rows[1..][i].id == id;
          assert rows[i + 1].id == id;
        }
        r
  }

  /** In a table with unique ids, the row at index `i` is the one found by its id. */
  lemma {:induction false} LookupAt(rows: seq<Row>, i: nat)
    requires IdsIncreasing(rows) && i < |rows|
    ensures Lookup(rows, rows[i].id) == Some(rows[i])
    decreases i
  {
    if i > 0 {
      assert rows[0].id < rows[i].id;
      LookupAt(rows[1..], i - 1);
    }
  }

  /** `UPDATE check_ins SET ... WHERE sel`: `f` applied to the selected rows, order kept. */
  function UpdateWhere(rows: seq<Row>, sel: Row -> bool, f: Row -> Row): (r: seq<Row>)
    ensures |r| == |rows|
    ensures forall i :: 0 <= i < |rows| ==> r[i] == if sel(rows[i]) then f(rows[i]) else rows[i]
  {
    seq(|rows|, i requires 0 <= i < |rows| => if sel(rows[i]) then f(rows[i]) else rows[i])
  }

  /** An update that never touches the id keeps every id in place. */
  lemma UpdateKeepsIds(rows: seq<Row>, sel: Row -> bool, f: Row -> Row)
    requires forall i :: 0 <= i < |rows| ==> f(rows[i]).id == rows[i].id
    ensures forall i :: 0 <= i < |rows| ==> UpdateWhere(rows, sel, f)[i].id == rows[i].id
    ensures IdsIncreasing(rows) ==> IdsIncreasing(UpdateWhere(rows, sel, f))
  {
  }

  /** `DELETE FROM check_ins WHERE sel`: the other rows, order kept. */
  function DeleteWhere(rows: seq<Row>, sel: Row -> bool): (r: seq<Row>)
    ensures |r| <= |rows|
    ensures forall i :: 0 <= i < |r| ==> !sel(r[i]) && r[i] in rows
    ensures forall i :: 0 <= i < |rows| && !sel(rows[i]) ==> rows[i] in r
  {
    Filter(rows, (row: Row) => !sel(row))
  }

  /** Deleting rows keeps the remaining ids increasing. */
  lemma {:induction false} DeleteKeepsOrder(rows: seq<Row>, sel: Row -> bool)
    requires IdsIncreasing(rows)
    ensures IdsIncreasing(DeleteWhere(rows, sel))
    decreases |rows|
  {
    if rows != [] {
      var init := rows[..|rows| - 1];
      var last := rows[|rows| - 1];
      DeleteKeepsOrder(init, sel);
      var prev := DeleteWhere(init, sel);
      assert DeleteWhere(rows, sel) == prev + (if sel(last) then [] else [last]);
      forall i | 0 <= i < |prev| ensures prev[i].id < last.id {
        var k :| 0 <= k < |init| && init[k] == prev[i];
      }
    }
  }

  /** The database file: the two tables and the AUTOINCREMENT counter of `check_ins`. */
  class Database {
    var checkIns: seq<Row>
    var likes: set<(int, string)>
    var nextId: int

    /** Ids are unique and increasing, and every id used so far is below `nextId`. */
    ghost predicate Valid()
      reads this
    {
      && IdsIncreasing(checkIns)
      && (forall i :: 0 <= i < |checkIns| ==> checkIns[i].id < nextId)
      && (forall p :: p in likes ==> p.0 < nextId)
    }

    function Find(id: int): (r: Option<Row>)
      reads this
      ensures r.None? <==> !HasId(checkIns, id)
      ensures r.Some? ==> r.value.id == id && r.value in checkIns
    {
      Lookup(checkIns, id)
    }

    /** An empty database; AUTOINCREMENT hands out 1 first. */
    constructor ()
      ensures Valid() && checkIns == [] && likes == {} && nextId == 1
    {
      checkIns := [];
      likes := {};
      nextId := 1;
    }
  }
}
