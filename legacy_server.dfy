/** The handlers and the periodic tick of the first revision of the
    service (src/server.py), over the store of `LegacyDatabase`. As written
    the module does not import (it names a readiness helper that is not
    defined); the model supplies the hosts' statuses as inputs.

    Each backend host answers a readiness query with a number that the
    tick adds up; a group is ready when the sum reaches the number of
    hosts. A backend reached by `add_group` or `generate` gives an `Answer`,
    where `Unreachable` is an exchange that raises. A handler runs alone,
    from start to finish. */
module LegacyServer {
  import opened Types
  import opened GroupTable
  import opened Microservices
  import LD = LegacyDatabase
  import Sig = Signature

  /** What a handler sends back: an `OperationResult` text, a 404 for a bad
      token, the backend's reply wrapped in a `DataDict`, an empty 200 (the
      handler returns nothing and declares no response model), or a server
      error when an exception escapes. */
  datatype Reply = Result(text: string) | NotFound | Generated(answer: Answer) | Empty | ServerError

  /** `sum(statuses)`, the tick's `count` after all hosts have answered. */
  function Sum(statuses: seq<int>): int
  {
    if statuses == [] then 0 else Sum(statuses[..|statuses| - 1]) + statuses[|statuses| - 1]
  }

  /** Some snapshot entry for `gid` had its statuses add up to `n`. */
  ghost predicate Confirmed(snapshot: seq<GroupAndStatus>, statuses: seq<seq<int>>, n: int, gid: int)
    requires |statuses| == |snapshot|
  {
    exists k :: 0 <= k < |snapshot| && snapshot[k].groupId == gid && Sum(statuses[k]) == n
  }

  /** Reference definition of the group pass of a tick: for each snapshot
      entry in order, set the group to 0 when its statuses add up to the
      number of hosts, and otherwise write nothing. */
  function LegacyTick(groups: seq<GroupRow>, snapshot: seq<GroupAndStatus>, statuses: seq<seq<int>>, n: int): seq<GroupRow>
    requires |statuses| == |snapshot|
    decreases |snapshot|
  {
    if snapshot == [] then groups
    else
      var next := if Sum(statuses[0]) == n then SetStatus(groups, snapshot[0].groupId, READY) else groups;
      LegacyTick(next, snapshot[1..], statuses[1..], n)
  }

  /** A row ends the pass at 0 exactly when its group was confirmed by some
      snapshot entry; every other row is left as it was. */
  lemma {:induction false} LegacyTickEffect(groups: seq<GroupRow>, snapshot: seq<GroupAndStatus>, statuses: seq<seq<int>>, n: int)
    requires |statuses| == |snapshot|
    decreases |snapshot|
    ensures var r := LegacyTick(groups, snapshot, statuses, n);
      && |r| == |groups|
      && forall i :: 0 <= i < |groups| ==>
           r[i] == if Confirmed(snapshot, statuses, n, groups[i].groupId) then groups[i].(status := READY) else groups[i]
  {
    if snapshot != [] {
      var next := if Sum(statuses[0]) == n then SetStatus(groups, snapshot[0].groupId, READY) else groups;
      var rest, restStatuses := snapshot[1..], statuses[1..];
      LegacyTickEffect(next, rest, restStatuses, n);
      var r := LegacyTick(groups, snapshot, statuses, n);
      forall i | 0 <= i < |groups|
        ensures r[i] == if Confirmed(snapshot, statuses, n, groups[i].groupId) then groups[i].(status := READY) else groups[i]
      {
        var gid := groups[i].groupId;
        assert next[i].groupId == gid;
        if Confirmed(rest, restStatuses, n, gid) {
          var k :| 0 <= k < |rest| && rest[k].groupId == gid && Sum(restStatuses[k]) == n;
          assert snapshot[k + 1] == rest[k] && statuses[k + 1] == restStatuses[k];
        } else {
          forall k | 1 <= k < |snapshot| ensures snapshot[k] == rest[k - 1] && statuses[k] == restStatuses[k - 1] {
          }
        }
      }
    }
  }

  /** Over the whole table, a pass never writes anything but 0: each row is
      either untouched or ready, and a row whose own statuses add up to the
      number of hosts is ready. */
  lemma LegacyTickNeverDowngrades(groups: seq<GroupRow>, statuses: seq<seq<int>>, n: int)
    requires |statuses| == |groups|
    ensures var r := LegacyTick(groups, Project(groups), statuses, n);
      && |r| == |groups|
      && (forall i :: 0 <= i < |groups| ==> r[i] == groups[i] || r[i] == groups[i].(status := READY))
      && (forall i :: 0 <= i < |groups| && Sum(statuses[i]) == n ==> r[i].status == READY)
  {
    var snapshot := Project(groups);
    LegacyTickEffect(groups, snapshot, statuses, n);
    forall i | 0 <= i < |groups| && Sum(statuses[i]) == n
      ensures Confirmed(snapshot, statuses, n, groups[i].groupId)
    {
      assert snapshot[i].groupId == groups[i].groupId;
    }
  }

  /** `check_statuses`, one tick: first sweeps the expired credentials, then
      for every group row adds up the hosts' statuses and marks the group
      ready when the sum equals the number of hosts. */
  method CheckStatuses(db: LD.Database, hosts: seq<string>, now: int, statuses: seq<seq<int>>)
    requires db.Valid()
    requires |statuses| == |db.groups|
    requires forall k :: 0 <= k < |statuses| ==> |statuses[k]| == |hosts|
    modifies db
    ensures db.Valid()
    ensures db.tokens == LD.Unexpired(old(db.tokens), now - LD.DAY)
    ensures db.groups == LegacyTick(old(db.groups), Project(old(db.groups)), statuses, |hosts|)
  {
    db.AutoremoveOldTokens(now);
    var groups := db.GetAllGroupsStatus();
    var k := 0;
    while k < |groups|
      invariant 0 <= k <= |groups|
      invariant db.Valid()
      invariant db.tokens == LD.Unexpired(old(db.tokens), now - LD.DAY)
      invariant LegacyTick(db.groups, groups[k..], statuses[k..], |hosts|) == LegacyTick(old(db.groups), groups, statuses, |hosts|)
    {
      var count := 0;
      var wantedCount := |hosts|;
      var h := 0;
      while h < |hosts|
        invariant 0 <= h <= |hosts|
        invariant count == Sum(statuses[k][..h])
      {
        assert statuses[k][..h + 1][..h] == statuses[k][..h];
        count := count + statuses[k][h];
        h := h + 1;
      }
      assert statuses[k][..h] == statuses[k];
      assert groups[k..][1..] == groups[k + 1..] && statuses[k..][1..] == statuses[k + 1..];
      if count == wantedCount {
        db.UpdateGroupStatus(groups[k].groupId, READY);
      }
      k := k + 1;
    }
  }

  /** `verify`: stores the token and answers "OK" when the signature is
      valid, answers "BAD" otherwise; a missing `sign` raises. */
  method Verify(db: LD.Database, query: seq<Sig.Item>, secret: string, crypto: Sig.Crypto,
                token: string, now: int) returns (reply: Reply)
    requires db.Valid()
    modifies db
    ensures db.Valid()
    ensures Sig.IsValid(query, secret, crypto).Failure? ==> reply == ServerError && db.tokens == old(db.tokens)
    ensures Sig.IsValid(query, secret, crypto) == Success(false) ==> reply == Result("BAD") && db.tokens == old(db.tokens)
    ensures reply == Result("OK") <==> Sig.IsValid(query, secret, crypto) == Success(true)
    ensures reply == Result("OK") ==>
              db.tokens == old(db.tokens) + [LD.TokenRow(db.makeSha256(token), now)] && db.IsValidToken(token)
    ensures db.groups == old(db.groups)
  {
    var valid := Sig.IsValid(query, secret, crypto);
    if valid.Failure? {
      return ServerError;
    }
    if valid.value {
      db.AddToken(token, now);
      return Result("OK");
    }
    reply := Result("BAD");
  }

  /** `add_group`: a bad token gets 404 and changes nothing. Otherwise the
      group gets a new row with status 2, and then every host receives the
      posts in order; the first exchange that raises ends the request with a
      server error, leaving the row in place. `contacted` is the number of
      hosts that received the posts. */
  method AddGroup(db: LD.Database, hosts: seq<string>, gid: int, token: string, answers: seq<Answer>)
    returns (reply: Reply, contacted: nat)
    requires db.Valid()
    requires |answers| == |hosts|
    modifies db
    ensures db.Valid()
    ensures !db.IsValidToken(token) ==> reply == NotFound && contacted == 0 && unchanged(db)
    ensures db.IsValidToken(token) ==> db.groups == old(db.groups) + [GroupRow(|old(db.groups)| + 1, gid, LD.NEW_GROUP)]
    ensures db.IsValidToken(token) ==>
              && (reply == ServerError <==> Unreachable in answers)
              && (reply != ServerError ==> reply == Empty && contacted == |hosts|)
              && (reply == ServerError ==> contacted == FirstUnreachable(answers) + 1)
    ensures db.tokens == old(db.tokens)
  {
    if !db.IsValidToken(token) {
      return NotFound, 0;
    }
    db.AddGroup(gid);
    var i := 0;
    while i < |hosts|
      invariant 0 <= i <= |hosts|
      invariant forall j :: 0 <= j < i ==> answers[j] != Unreachable
    {
      if answers[i] == Unreachable {
        assert FirstUnreachable(answers) == i;
        return ServerError, i + 1;
      }
      i := i + 1;
    }
    reply, contacted := Empty, |hosts|;
  }

  /** Index of the first exchange that raises, or the length of the list. */
  function FirstUnreachable(answers: seq<Answer>): (k: nat)
    ensures k <= |answers|
    ensures forall j :: 0 <= j < k ==> answers[j] != Unreachable
    ensures k < |answers| ==> answers[k] == Unreachable
  {
    if answers == [] then 0
    else if answers[0] == Unreachable then 0
    else FirstUnreachable(answers[1..]) + 1
  }

  /** `get_groups`: a bad token gets 404. Otherwise the handler wraps the
      store's `get_all_groups_status` method itself, not its result, in the
      response model, which rejects it: a server error. */
  function GetGroups(db: LD.Database, token: string): (r: Reply)
    reads db
    ensures r == NotFound <==> !db.IsValidToken(token)
    ensures r != NotFound ==> r == ServerError
  {
    if !db.IsValidToken(token) then NotFound else ServerError
  }

  /** `generate`: a bad token gets 404 and no host is contacted; otherwise
      the named host's reply, or a server error when the exchange raises.
      `contacted` says whether the host received the request. */
  function Generate(db: LD.Database, token: string, answer: Answer): (r: (Reply, bool))
    reads db
    ensures !db.IsValidToken(token) <==> r == (NotFound, false)
    ensures db.IsValidToken(token) ==> r.1 && (r.0 == ServerError <==> answer == Unreachable)
    ensures db.IsValidToken(token) && answer != Unreachable ==> r.0 == Generated(answer)
  {
    if !db.IsValidToken(token) then (NotFound, false)
    else if answer == Unreachable then (ServerError, true)
    else (Generated(answer), true)
  }
}
