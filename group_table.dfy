/** The `vk_groups` table (id, group_id, status_id), which both revisions of
    the main service declare with the same columns, and the row-level effect
    of the statements they run on it. Each statement is taken to act at once
    on the in-memory sequence of rows, in insertion order. */
module GroupTable {
  import opened Types

  /** One row: the autoincrement key, the group's id and its status. */
  datatype GroupRow = GroupRow(id: nat, groupId: int, status: int)

  /** Rows are never deleted, so the autoincrement key of row `i` is `i + 1`. */
  ghost predicate SequentialIds(rows: seq<GroupRow>)
  {
    forall i :: 0 <= i < |rows| ==> rows[i].id == i + 1
  }

  /** No two rows share a group id. */
  ghost predicate UniqueGroupIds(rows: seq<GroupRow>)
  {
    forall i, j :: 0 <= i < j < |rows| ==> rows[i].groupId != rows[j].groupId
  }

  /** `SELECT ... WHERE group_id = gid`, first row: its index, if any. */
  function FindGroup(rows: seq<GroupRow>, gid: int): (r: Option<nat>)
    ensures r.None? <==> forall i :: 0 <= i < |rows| ==> rows[i].groupId != gid
    ensures r.Some? ==> r.value < |rows| && rows[r.value].groupId == gid
    ensures r.Some? ==> forall i :: 0 <= i < r.value ==> rows[i].groupId != gid
  {
    if rows == [] then None
    else if rows[0].groupId == gid then Some(0)
    else match FindGroup(rows[1..], gid)
      case None => None
      case Some(k) => Some(k + 1)
  }

  /** `UPDATE vk_groups SET status_id = s WHERE group_id = gid`. */
  function SetStatus(rows: seq<GroupRow>, gid: int, s: int): (r: seq<GroupRow>)
    ensures |r| == |rows|
    ensures forall i :: 0 <= i < |rows| ==>
              r[i] == if rows[i].groupId == gid then rows[i].(status := s) else rows[i]
  {
    if rows == [] then []
    else [if rows[0].groupId == gid then rows[0].(status := s) else rows[0]]
         + SetStatus(rows[1..], gid, s)
  }

  /** `[GroupAndStatusModel(group_id=row[1], group_status=row[2]) for row in result]` */
  function Project(rows: seq<GroupRow>): (r: seq<GroupAndStatus>)
    ensures |r| == |rows|
    ensures forall i :: 0 <= i < |rows| ==> r[i] == GroupAndStatus(rows[i].groupId, rows[i].status)
  {
    if rows == [] then [] else [GroupAndStatus(rows[0].groupId, rows[0].status)] + Project(rows[1..])
  }

  /** An update keeps the table's keys and group ids, so it keeps both table
      invariants. */
  lemma SetStatusKeepsKeys(rows: seq<GroupRow>, gid: int, s: int)
    ensures SequentialIds(rows) ==> SequentialIds(SetStatus(rows, gid, s))
    ensures UniqueGroupIds(rows) ==> UniqueGroupIds(SetStatus(rows, gid, s))
  {
  }

  /** Updating to the same status twice is the same as updating once. */
  lemma {:induction false} SetStatusIdempotent(rows: seq<GroupRow>, gid: int, s: int)
    ensures SetStatus(SetStatus(rows, gid, s), gid, s) == SetStatus(rows, gid, s)
  {
    var once := SetStatus(rows, gid, s);
    var twice := SetStatus(once, gid, s);
    assert forall i :: 0 <= i < |rows| ==> twice[i] == once[i];
  }
}
