/** The store of the first revision of the service (src/database.py): the
    credential table `vk_token_hashes` (hash, acquisition time) and the groups
    table. It is the only definition of the credential store in the
    repository; the main service calls its token operations as well.

    Each statement takes effect at once on in-memory sequences of rows. The
    hash function is a parameter of the store, and time is a number of
    seconds read from a clock the caller passes in. */
module LegacyDatabase {
  import opened Types
  import opened GroupTable

  /** The retention window of a credential, one day in seconds. */
  const DAY: int := 86400

  /** The status a newly added group row starts with. */
  const NEW_GROUP: int := 2

  /** A row of `vk_token_hashes`; the token itself is never stored. */
  datatype TokenRow = TokenRow(hash: string, acquired: int)

  /** The rows left by `DELETE ... WHERE acquired <= cutoff`, in table order. */
  function Unexpired(rows: seq<TokenRow>, cutoff: int): (r: seq<TokenRow>)
    ensures |r| <= |rows|
    ensures forall x :: x in r <==> x in rows && x.acquired > cutoff
  {
    if rows == [] then []
    else (if rows[0].acquired > cutoff then [rows[0]] else []) + Unexpired(rows[1..], cutoff)
  }

  /** A sweep of two runs of rows is the sweep of the first followed by the
      sweep of the second: the kept rows stay in table order. */
  lemma {:induction false} UnexpiredAppend(a: seq<TokenRow>, b: seq<TokenRow>, cutoff: int)
    ensures Unexpired(a + b, cutoff) == Unexpired(a, cutoff) + Unexpired(b, cutoff)
  {
    if a != [] {
      assert (a + b)[0] == a[0] && (a + b)[1..] == a[1..] + b;
      UnexpiredAppend(a[1..], b, cutoff);
    } else {
      assert a + b == b;
    }
  }

  /** A sweep keeps every copy of a young row and no copy of an old one. */
  lemma {:induction false} UnexpiredCount(rows: seq<TokenRow>, cutoff: int, x: TokenRow)
    ensures multiset(Unexpired(rows, cutoff))[x] == if x.acquired > cutoff then multiset(rows)[x] else 0
  {
    if rows != [] {
      UnexpiredCount(rows[1..], cutoff, x);
      var head := if rows[0].acquired > cutoff then [rows[0]] else [];
      assert multiset(Unexpired(rows, cutoff)) == multiset(head) + multiset(Unexpired(rows[1..], cutoff));
      assert rows == [rows[0]] + rows[1..];
      assert multiset(rows) == multiset{rows[0]} + multiset(rows[1..]);
    }
  }

  /** Sweeping twice with the same clock reading is sweeping once. */
  lemma {:induction false} UnexpiredIdempotent(rows: seq<TokenRow>, cutoff: int)
    ensures Unexpired(Unexpired(rows, cutoff), cutoff) == Unexpired(rows, cutoff)
  {
    if rows != [] {
      UnexpiredIdempotent(rows[1..], cutoff);
      var rest := Unexpired(rows[1..], cutoff);
      if rows[0].acquired <= cutoff {
        assert Unexpired(rows, cutoff) == [] + rest == rest;
      } else {
        var once := [rows[0]] + rest;
        assert once[0] == rows[0] && once[1..] == rest;
        assert Unexpired(once, cutoff) == [rows[0]] + Unexpired(rest, cutoff);
      }
    }
  }

  /** A sweep keeps the table as it is when every row is young enough. */
  lemma {:induction false} UnexpiredKeepsFresh(rows: seq<TokenRow>, cutoff: int)
    requires forall i :: 0 <= i < |rows| ==> rows[i].acquired > cutoff
    ensures Unexpired(rows, cutoff) == rows
  {
    if rows != [] {
      UnexpiredKeepsFresh(rows[1..], cutoff);
      assert [rows[0]] + rows[1..] == rows;
    }
  }

  /** Some row holds the hash `h`. */
  function HasHash(rows: seq<TokenRow>, h: string): (r: bool)
    ensures r <==> exists i :: 0 <= i < |rows| && rows[i].hash == h
  {
    if rows == [] then false
    else rows[0].hash == h || HasHash(rows[1..], h)
  }

  class Database {
    /** `make_sha256`, the one-way hash applied to every token. */
    const makeSha256: string -> string
    var tokens: seq<TokenRow>
    var groups: seq<GroupRow>

    ghost predicate Valid()
      reads this
    {
      SequentialIds(groups)
    }

    constructor (makeSha256: string -> string)
      ensures Valid() && this.makeSha256 == makeSha256 && tokens == [] && groups == []
    {
      this.makeSha256 := makeSha256;
      tokens, groups := [], [];
    }

    /** `add_token`: stores the hash of the token, acquired now. */
    method AddToken(token: string, now: int)
      requires Valid()
      modifies this
      ensures Valid()
      ensures tokens == old(tokens) + [TokenRow(makeSha256(token), now)]
      ensures groups == old(groups)
      ensures IsValidToken(token)
    {
      tokens := tokens + [TokenRow(makeSha256(token), now)];
      assert tokens[|tokens| - 1].hash == makeSha256(token);
    }

    /** `autoremove_old_tokens`: deletes every row acquired a day or more
        before now, keeping the others in order. */
    method AutoremoveOldTokens(now: int)
      requires Valid()
      modifies this
      ensures Valid()
      ensures tokens == Unexpired(old(tokens), now - DAY)
      ensures groups == old(groups)
    {
      tokens := Unexpired(tokens, now - DAY);
    }

    /** `is_valid_token`: some stored row carries the token's hash. */
    function IsValidToken(token: string): (r: bool)
      reads this
      ensures r <==> exists i :: 0 <= i < |tokens| && tokens[i].hash == makeSha256(token)
    {
      HasHash(tokens, makeSha256(token))
    }

    /** `add_group`: appends a row with status 2, whether or not the group
        already has one. */
    method AddGroup(gid: int)
      requires Valid()
      modifies this
      ensures Valid()
      ensures groups == old(groups) + [GroupRow(|old(groups)| + 1, gid, NEW_GROUP)]
      ensures tokens == old(tokens)
    {
      groups := groups + [GroupRow(|groups| + 1, gid, NEW_GROUP)];
    }

    /** `update_group_status`: sets the status of every row of the group. */
    method UpdateGroupStatus(gid: int, status: int)
      requires Valid()
      modifies this
      ensures Valid()
      ensures groups == SetStatus(old(groups), gid, status)
      ensures tokens == old(tokens)
    {
      SetStatusKeepsKeys(groups, gid, status);
      groups := SetStatus(groups, gid, status);
    }

    /** `get_group_status`: the status of the group's first row; with no row
        the index into the empty result raises. */
    function GetGroupStatus(gid: int): (r: Result<int>)
      reads this
      ensures r.Failure? <==> forall i :: 0 <= i < |groups| ==> groups[i].groupId != gid
      ensures r.Failure? ==> r.exc == IndexError
      ensures forall i :: 0 <= i < |groups| && groups[i].groupId == gid ==>
                (forall j :: 0 <= j < i ==> groups[j].groupId != gid) ==> r == Success(groups[i].status)
    {
      match FindGroup(groups, gid)
      case None => Failure(IndexError)
      case Some(i) => Success(groups[i].status)
    }

    /** `get_all_groups_status`: one pair per row, duplicates included, in
        table order. */
    function GetAllGroupsStatus(): (r: seq<GroupAndStatus>)
      reads this
      ensures |r| == |groups|
      ensures forall i :: 0 <= i < |groups| ==> r[i] == GroupAndStatus(groups[i].groupId, groups[i].status)
    {
      Project(groups)
    }
  }
}
