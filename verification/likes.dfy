/**
 * The like repository (`src/db/repositories/like.py`): one like per
 * `(checkin_id, ip_address)` pair, counted in the record's `love` column.
 */
module Likes {
  import opened Wrappers
  import opened Store

  const NotFoundMessage: string := "记录不存在"
  const LikedMessage: string := "点赞成功"
  const RepeatMessage: string := "你已经点过赞了"

  /** The like pairs of one record. */
  function LikesOf(likes: set<(int, string)>, id: int): set<(int, string)> {
    set p | p in likes && p.0 == id
  }

  /** The `love` column of every row equals the number of likes it has. */
  predicate LoveMatches(rows: seq<Row>, likes: set<(int, string)>) {
    forall i :: 0 <= i < |rows| ==> rows[i].love == Some(|LikesOf(likes, rows[i].id)|)
  }

  /** `love + 1` in SQL: NULL stays NULL. */
  function Increment(love: Option<int>): Option<int> {
    match love
    case None => None
    case Some(n) => Some(n + 1)
  }

  /** `UPDATE check_ins SET love = love + 1 WHERE id = ?`. */
  function Bump(rows: seq<Row>, id: int): seq<Row> {
    UpdateWhere(rows, (r: Row) => r.id == id, (r: Row) => r.(love := Increment(r.love)))
  }

  /** The bump adds one to the liked record's love and leaves every other row as it was. */
  lemma BumpOnlyTouchesTarget(rows: seq<Row>, id: int, other: int)
    requires IdsIncreasing(rows)
    ensures forall i :: 0 <= i < |rows| ==> Bump(rows, id)[i].id == rows[i].id
    ensures IdsIncreasing(Bump(rows, id))
    ensures Lookup(Bump(rows, id), id) == match Lookup(rows, id)
      case None => None
      case Some(r) => Some(r.(love := Increment(r.love)))
    ensures other != id ==> Lookup(Bump(rows, id), other) == Lookup(rows, other)
  {
    var b := Bump(rows, id);
    assert forall i :: 0 <= i < |rows| ==> b[i].id == rows[i].id;
    forall k | k == id || k == other
      ensures Lookup(b, k) == match Lookup(rows, k)
        case None => None
        case Some(r) => Some(if k == id then r.(love := Increment(r.love)) else r)
    {
      if HasId(rows, k) {
        var i :| 0 <= i < |rows| && rows[i].id == k;
        LookupAt(rows, i);
        LookupAt(b, i);
      } else {
        assert !HasId(b, k);
      }
    }
  }

  /** Adding a new pair and bumping its record keeps every love count in step. */
  lemma LikeKeepsLoveMatching(rows: seq<Row>, likes: set<(int, string)>, id: int, ip: string)
    requires LoveMatches(rows, likes) && (id, ip) !in likes
    ensures LoveMatches(Bump(rows, id), likes + {(id, ip)})
  {
    var after := likes + {(id, ip)};
    assert LikesOf(after, id) == LikesOf(likes, id) + {(id, ip)};
    forall k | k != id ensures LikesOf(after, k) == LikesOf(likes, k) {
    }
    var b := Bump(rows, id);
    forall i | 0 <= i < |b| ensures b[i].love == Some(|LikesOf(after, b[i].id)|) {
      if rows[i].id == id {
        assert |LikesOf(after, id)| == |LikesOf(likes, id)| + 1;
      } else {
        assert LikesOf(after, rows[i].id) == LikesOf(likes, rows[i].id);
      }
    }
  }

  /**
   * `add`: an unknown record gives `(False, 0)`; a pair already present trips
   * the UNIQUE constraint and gives `(False, current love)`; otherwise the
   * pair is inserted and the record's love goes up by one.
   */
  method Add(db: Database, checkinId: int, ip: string) returns (ok: bool, love: Option<int>, message: string)
    requires db.Valid()
    modifies db
    ensures db.Valid() && db.nextId == old(db.nextId)
    ensures old(db.Find(checkinId)).None? ==>
      && !ok && love == Some(0) && message == NotFoundMessage
      && db.checkIns == old(db.checkIns) && db.likes == old(db.likes)
    ensures old(db.Find(checkinId)).Some? && (checkinId, ip) in old(db.likes) ==>
      && !ok && love == old(db.Find(checkinId)).value.love && message == RepeatMessage
      && db.checkIns == old(db.checkIns) && db.likes == old(db.likes)
    ensures old(db.Find(checkinId)).Some? && (checkinId, ip) !in old(db.likes) ==>
      && ok && message == LikedMessage
      && db.likes == old(db.likes) + {(checkinId, ip)}
      && db.checkIns == Bump(old(db.checkIns), checkinId)
      && love == Increment(old(db.Find(checkinId)).value.love)
    ensures ok ==> Check(db, checkinId, ip)
    ensures LoveMatches(old(db.checkIns), old(db.likes)) ==> LoveMatches(db.checkIns, db.likes)
  {
    var row := db.Find(checkinId);
    if row.None? {
      return false, Some(0), NotFoundMessage;
    }
    if (checkinId, ip) in db.likes {
      return false, row.value.love, RepeatMessage;
    }
    var rows := db.checkIns;
    BumpOnlyTouchesTarget(rows, checkinId, checkinId);
    assert checkinId < db.nextId by {
      assert row.value in rows;
    }
    if LoveMatches(rows, db.likes) {
      LikeKeepsLoveMatching(rows, db.likes, checkinId, ip);
    }
    db.likes := db.likes + {(checkinId, ip)};
    db.checkIns := Bump(rows, checkinId);
    ok, love, message := true, db.Find(checkinId).value.love, LikedMessage;
  }

  /** `check`: whether this ip has liked this record, that is, whether its like is one the record's love counts. */
  function Check(db: Database, checkinId: int, ip: string): (liked: bool)
    reads db
    ensures liked <==> (checkinId, ip) in LikesOf(db.likes, checkinId)
  {
    (checkinId, ip) in db.likes
  }

  /** While love counts the likes, a record someone has liked shows a love of at least one. */
  lemma LikedRecordIsLoved(rows: seq<Row>, likes: set<(int, string)>, id: int, ip: string)
    requires LoveMatches(rows, likes) && (id, ip) in likes && HasId(rows, id)
    ensures Lookup(rows, id).Some? && Lookup(rows, id).value.love.Some?
    ensures Lookup(rows, id).value.love.value >= 1
  {
    var row := Lookup(rows, id).value;
    var i :| 0 <= i < |rows| && rows[i] == row;
    assert (id, ip) in LikesOf(likes, id);
    assert |LikesOf(likes, id)| >= 1;
  }

  /** `get_liked_ids`: the ids of every record this ip has liked, each once. */
  method GetLikedIds(db: Database, ip: string) returns (ids: seq<int>)
    ensures forall id :: id in ids <==> (id, ip) in db.likes
    ensures forall i, j :: 0 <= i < j < |ids| ==> ids[i] != ids[j]
  {
    var rest := db.likes;
    ids := [];
    while rest != {}
      invariant rest <= db.likes
      invariant forall id :: id in ids <==> (id, ip) in db.likes - rest
      invariant forall i, j :: 0 <= i < j < |ids| ==> ids[i] != ids[j]
      decreases |rest|
    {
      var p :| p in rest;
      if p.1 == ip {
        ids := ids + [p.0];
      }
      rest := rest - {p};
    }
  }
}
