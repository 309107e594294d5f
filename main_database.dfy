/** The registry of the main service (main_service/src/database.py): a users
    table, the groups table and a link table from user rows to group rows.
    Each statement takes effect at once on in-memory sequences of rows; the
    engine, the connections and the transactions are not modelled.

    The users column `vk_user_id` is an integer column, but the main service
    passes a token string where the user id is expected; user keys are
    therefore modelled as strings compared by equality. */
module MainDatabase {
  import opened Types
  import opened GroupTable

  /** A row of `vk_user_ids`: autoincrement key and the user's key. */
  datatype UserRow = UserRow(id: nat, vkUserId: string)

  /** A row of `id_group_link`: key of a user row, key of a group row. */
  datatype LinkRow = LinkRow(userRef: nat, groupRef: nat)

  /** Index of the first user row holding `u`, if any. */
  function FindUser(users: seq<UserRow>, u: string): (r: Option<nat>)
    ensures r.None? <==> forall i :: 0 <= i < |users| ==> users[i].vkUserId != u
    ensures r.Some? ==> r.value < |users| && users[r.value].vkUserId == u
    ensures r.Some? ==> forall i :: 0 <= i < r.value ==> users[i].vkUserId != u
  {
    if users == [] then None
    else if users[0].vkUserId == u then Some(0)
    else match FindUser(users[1..], u)
      case None => None
      case Some(k) => Some(k + 1)
  }

  /** The groups table after `add_group`'s conditional insert: unchanged when
      a row already has the group id, otherwise one new not-ready row. */
  function InsertIfAbsent(groups: seq<GroupRow>, gid: int): seq<GroupRow>
  {
    if FindGroup(groups, gid).Some? then groups
    else groups + [GroupRow(|groups| + 1, gid, NOT_READY)]
  }

  /** The conditional insert keeps every existing row in place, leaves the
      table unchanged when the group already has a row, and otherwise adds
      exactly one row, not ready, which the group's lookup then finds. It
      always leaves a row for the group, is idempotent, and keeps both table
      invariants. */
  lemma InsertIfAbsentFacts(groups: seq<GroupRow>, gid: int)
    ensures var g := InsertIfAbsent(groups, gid);
      && groups <= g
      && FindGroup(g, gid).Some?
      && InsertIfAbsent(g, gid) == g
      && (FindGroup(groups, gid).Some? ==> g == groups)
      && (FindGroup(groups, gid).None? ==>
            |g| == |groups| + 1 && FindGroup(g, gid) == Some(|groups|) && g[|groups|].status == NOT_READY)
      && (SequentialIds(groups) ==> SequentialIds(g))
      && (UniqueGroupIds(groups) ==> UniqueGroupIds(g))
  {
    var g := InsertIfAbsent(groups, gid);
    if FindGroup(groups, gid).None? {
      assert g[|groups|].groupId == gid;
    }
  }

  /** Group rows whose key is in `refs`. The query has no `ORDER BY`; the
      model returns the rows in table order. */
  function RowsIn(groups: seq<GroupRow>, refs: set<nat>): (r: seq<GroupRow>)
    ensures forall x :: x in r <==> x in groups && x.id in refs
    ensures |r| <= |groups|
  {
    if groups == [] then []
    else (if groups[0].id in refs then [groups[0]] else []) + RowsIn(groups[1..], refs)
  }

  /** Selecting from two runs of rows is selecting from the first, then from
      the second. */
  lemma {:induction false} RowsInAppend(a: seq<GroupRow>, b: seq<GroupRow>, refs: set<nat>)
    ensures RowsIn(a + b, refs) == RowsIn(a, refs) + RowsIn(b, refs)
  {
    if a != [] {
      assert (a + b)[0] == a[0] && (a + b)[1..] == a[1..] + b;
      RowsInAppend(a[1..], b, refs);
    } else {
      assert a + b == b;
    }
  }

  /** Keys of the group rows linked to the user row with key `userRef`. */
  function LinkedGroups(links: seq<LinkRow>, userRef: nat): (r: set<nat>)
    ensures forall g :: g in r <==> exists i :: 0 <= i < |links| && links[i] == LinkRow(userRef, g)
  {
    set i | 0 <= i < |links| && links[i].userRef == userRef :: links[i].groupRef
  }

  /** No element occurs twice. */
  ghost predicate NoDuplicates<T>(s: seq<T>)
  {
    forall i, j :: 0 <= i < j < |s| ==> s[i] != s[j]
  }

  /** Keeping some rows of a table without repeated rows repeats none. */
  lemma {:induction false} RowsInNoDuplicates(groups: seq<GroupRow>, refs: set<nat>)
    requires NoDuplicates(groups)
    ensures NoDuplicates(RowsIn(groups, refs))
  {
    if groups != [] {
      RowsInNoDuplicates(groups[1..], refs);
      var rest := RowsIn(groups[1..], refs);
      if groups[0].id in refs {
        var r := [groups[0]] + rest;
        assert groups[0] !in groups[1..];
        forall i, j | 0 <= i < j < |r| ensures r[i] != r[j] {
          if i == 0 {
            assert r[j] in rest;
          } else {
            assert r[i] == rest[i - 1] && r[j] == rest[j - 1];
          }
        }
      } else {
        assert RowsIn(groups, refs) == rest;
      }
    }
  }

  class Database {
    var users: seq<UserRow>
    var groups: seq<GroupRow>
    var links: seq<LinkRow>

    /** Keys follow insertion order and a group id has at most one row. */
    ghost predicate Valid()
      reads this
    {
      && (forall i :: 0 <= i < |users| ==> users[i].id == i + 1)
      && SequentialIds(groups)
      && UniqueGroupIds(groups)
    }

    constructor ()
      ensures Valid() && users == [] && groups == [] && links == []
    {
      users, groups, links := [], [], [];
    }

    /** `add_user_id`: appends a user row. */
    method AddUserId(u: string)
      requires Valid()
      modifies this
      ensures Valid()
      ensures users == old(users) + [UserRow(|old(users)| + 1, u)]
      ensures groups == old(groups) && links == old(links)
      ensures IsValidUserId(u)
    {
      users := users + [UserRow(|users| + 1, u)];
      assert users[|users| - 1].vkUserId == u;
    }

    /** `is_valid_user_id`: some user row holds `u`. */
    function IsValidUserId(u: string): (r: bool)
      reads this
      ensures r <==> exists i :: 0 <= i < |users| && users[i].vkUserId == u
    {
      FindUser(users, u).Some?
    }

    /** `add_group`: inserts a not-ready row for the group when none exists,
        then looks up the user (after the possible insert) and appends a link
        from the user's first row to the group's row; an unknown user raises
        `DBException` and leaves the insert in place. */
    method AddGroup(gid: int, u: string) returns (r: Outcome)
      requires Valid()
      modifies this
      ensures Valid()
      ensures groups == InsertIfAbsent(old(groups), gid) && FindGroup(groups, gid).Some?
      ensures old(FindGroup(groups, gid)).None? ==>
                |groups| == |old(groups)| + 1 && GetGroupStatus(gid) == NOT_READY
      ensures old(FindGroup(groups, gid)).Some? ==>
                groups == old(groups) && GetGroupStatus(gid) == old(GetGroupStatus(gid))
      ensures users == old(users)
      ensures r.Fail? <==> !IsValidUserId(u)
      ensures r.Fail? ==> r.exc == DBException && links == old(links)
      ensures r.Pass? ==> links == old(links) + [LinkRow(users[FindUser(users, u).value].id,
                                                         groups[FindGroup(groups, gid).value].id)]
    {
      InsertIfAbsentFacts(groups, gid);
      if FindGroup(groups, gid).None? {
        groups := groups + [GroupRow(|groups| + 1, gid, NOT_READY)];
      }
      var groupIdLink := groups[FindGroup(groups, gid).value].id;
      var userInd := FindUser(users, u);
      if userInd.None? {
        return Fail(DBException);
      }
      var vkUserIdLink := users[userInd.value].id;
      links := links + [LinkRow(vkUserIdLink, groupIdLink)];
      r := Pass;
    }

    /** `update_group_status`: overwrites the status of every row of the group. */
    method UpdateGroupStatus(gid: int, status: int)
      requires Valid()
      modifies this
      ensures Valid()
      ensures groups == SetStatus(old(groups), gid, status)
      ensures users == old(users) && links == old(links)
    {
      SetStatusKeepsKeys(groups, gid, status);
      groups := SetStatus(groups, gid, status);
    }

    /** `get_group_status`: the status of the group's first row, or 2 when the
        group has no row. */
    function GetGroupStatus(gid: int): (r: int)
      reads this
      ensures (forall i :: 0 <= i < |groups| ==> groups[i].groupId != gid) ==> r == NOT_IN_DATABASE
      ensures forall i :: 0 <= i < |groups| && groups[i].groupId == gid ==>
                (forall j :: 0 <= j < i ==> groups[j].groupId != gid) ==> r == groups[i].status
    {
      match FindGroup(groups, gid)
      case None => NOT_IN_DATABASE
      case Some(i) => groups[i].status
    }

    /** `get_all_groups`: one (group id, status) pair per row, in table order. */
    function GetAllGroups(): (r: seq<GroupAndStatus>)
      reads this
      ensures |r| == |groups|
      ensures forall i :: 0 <= i < |groups| ==> r[i] == GroupAndStatus(groups[i].groupId, groups[i].status)
    {
      Project(groups)
    }

    /** `get_owned_groups`: the group rows linked to the first row of user
        `u`, each once, in table order; an unknown user raises. */
    function GetOwnedGroups(u: string): (r: Result<seq<GroupAndStatus>>)
      reads this
      ensures r.Failure? <==> !IsValidUserId(u)
      ensures r.Failure? ==> r.exc == DBException
      ensures r.Success? ==> r.value == Project(RowsIn(groups, LinkedGroups(links, users[FindUser(users, u).value].id)))
    {
      match FindUser(users, u)
      case None => Failure(DBException)
      case Some(i) => Success(Project(RowsIn(groups, LinkedGroups(links, users[i].id))))
    }

    /** A group row is among the owned groups iff a link joins it to the
        user's first row, and no row is listed twice. */
    lemma OwnedGroupsMeaning(u: string)
      requires Valid() && IsValidUserId(u)
      ensures var rows := RowsIn(groups, LinkedGroups(links, users[FindUser(users, u).value].id));
        && GetOwnedGroups(u) == Success(Project(rows))
        && NoDuplicates(rows)
        && forall x :: x in rows <==>
             x in groups && exists i :: 0 <= i < |links| && links[i] == LinkRow(users[FindUser(users, u).value].id, x.id)
    {
      assert NoDuplicates(groups);
      RowsInNoDuplicates(groups, LinkedGroups(links, users[FindUser(users, u).value].id));
    }
  }
}
