/** The handlers and the periodic tick of the main service
    (main_service/src/server.py) as its authors evidently meant them,
    composed from the registry (`MainDatabase.Database`), a credential store
    (`LegacyDatabase.Database`, the only definition of `add_token` and
    `is_valid_token` in the repository, which the main service's own
    `Database` lacks) and the fan-out client. As written, the module does not
    import: two of the request models it names are not defined.

    A handler runs alone, from start to finish; what the backends answer is
    given as `Answer` values, one per configured backend. A database error
    the handler would catch is given as a boolean parameter where the
    handler can meet one. */
module MainServer {
  import opened Types
  import opened GroupTable
  import opened Microservices
  import MD = MainDatabase
  import LD = LegacyDatabase
  import Sig = Signature

  /** The status the tick writes for a group some backend is not ready for. */
  const TICK_NOT_READY: int := 3

  /** Docker names of the three generation backends. */
  const TEXT_GEN: string := "text_gen"
  const IMAGE_GEN: string := "image_gen"
  const MEME_TEMPLATE_GEN: string := "meme_template_gen"

  /** The generation handlers: `generate_text`, `generate_image` and
      `generate_meme_template`. */
  datatype Generator = TextGen | ImageGen | MemeTemplateGen

  /** The docker name each generation handler passes to the manager. */
  function BackendName(g: Generator): (name: string)
    ensures g == TextGen <==> name == TEXT_GEN
    ensures g == ImageGen <==> name == IMAGE_GEN
    ensures g == MemeTemplateGen <==> name == MEME_TEMPLATE_GEN
  {
    match g
    case TextGen => TEXT_GEN
    case ImageGen => IMAGE_GEN
    case MemeTemplateGen => MEME_TEMPLATE_GEN
  }

  /** Each handler names its own backend. */
  lemma BackendNamesDistinct(g: Generator, h: Generator)
    ensures BackendName(g) == BackendName(h) ==> g == h
  {
  }

  /** An `OperationResult`, or a request that ends in a server error because
      an exception escapes the handler or the handler returns nothing. */
  datatype Reply = Status(code: Code) | ServerError

  /** A `GroupAndStatusModelList`. */
  datatype GroupsReply = GroupsReply(status: Code, data: seq<GroupAndStatus>, count: int)

  /** A `DataString`. */
  datatype DataReply = DataReply(data: string, status: Code)

  // ---------------------------------------------------------------------
  // check_statuses

  /** The status the tick writes for a group whose readiness check returned. */
  function TickStatus(answers: seq<Answer>): (s: int)
    requires Readiness(answers).Success?
    ensures s == READY <==> forall j :: 0 <= j < |answers| ==> answers[j] == Ok
    ensures s == READY || s == TICK_NOT_READY
  {
    ReadinessMeaning(answers);
    if Readiness(answers).value then READY else TICK_NOT_READY
  }

  /** Reference definition of one tick: walk the snapshot of the table in
      order, write 0 or 3 for each group, and give up at the first group
      whose readiness check raises. `replies[k]` is what the backends answer
      about the `k`-th group of the snapshot. */
  function Tick(groups: seq<GroupRow>, snapshot: seq<GroupAndStatus>, replies: seq<seq<Answer>>): seq<GroupRow>
    requires |replies| == |snapshot|
    decreases |snapshot|
  {
    if snapshot == [] then groups
    else if Readiness(replies[0]).Failure? then groups
    else Tick(SetStatus(groups, snapshot[0].groupId, TickStatus(replies[0])), snapshot[1..], replies[1..])
  }

  /** Index of the first group whose readiness check raises, or the number
      of groups when none does. */
  function FirstFailure(replies: seq<seq<Answer>>): (f: nat)
    ensures f <= |replies|
    ensures forall k :: 0 <= k < f ==> Readiness(replies[k]).Success?
    ensures f < |replies| ==> Readiness(replies[f]).Failure?
  {
    if replies == [] then 0
    else if Readiness(replies[0]).Failure? then 0
    else FirstFailure(replies[1..]) + 1
  }

  /** No group id occurs twice in the snapshot. */
  ghost predicate DistinctGroups(snapshot: seq<GroupAndStatus>)
  {
    forall k, l :: 0 <= k < l < |snapshot| ==> snapshot[k].groupId != snapshot[l].groupId
  }

  /** What one tick does to each row: a row whose group is checked before
      the first failing check gets 0 or 3 from that check, and every other
      row is left as it was. */
  lemma {:induction false} TickEffect(groups: seq<GroupRow>, snapshot: seq<GroupAndStatus>, replies: seq<seq<Answer>>)
    requires |replies| == |snapshot| && DistinctGroups(snapshot)
    decreases |snapshot|
    ensures var r := Tick(groups, snapshot, replies);
      && |r| == |groups|
      && (forall i, k :: 0 <= i < |groups| && 0 <= k < FirstFailure(replies) && snapshot[k].groupId == groups[i].groupId ==>
            r[i] == groups[i].(status := TickStatus(replies[k])))
      && (forall i :: 0 <= i < |groups| && (forall k :: 0 <= k < FirstFailure(replies) ==> snapshot[k].groupId != groups[i].groupId) ==>
            r[i] == groups[i])
  {
    if snapshot != [] && Readiness(replies[0]).Success? {
      var g := snapshot[0].groupId;
      var next := SetStatus(groups, g, TickStatus(replies[0]));
      var rest, restReplies := snapshot[1..], replies[1..];
      TickEffect(next, rest, restReplies);
      assert FirstFailure(replies) == FirstFailure(restReplies) + 1;
      var r := Tick(groups, snapshot, replies);
      assert r == Tick(next, rest, restReplies);
      forall i, k | 0 <= i < |groups| && 0 <= k < FirstFailure(replies) && snapshot[k].groupId == groups[i].groupId
        ensures r[i] == groups[i].(status := TickStatus(replies[k]))
      {
        if k == 0 {
          forall l | 0 <= l < FirstFailure(restReplies) ensures rest[l].groupId != next[i].groupId {
            assert rest[l] == snapshot[l + 1];
          }
        } else {
          assert rest[k - 1] == snapshot[k] && restReplies[k - 1] == replies[k];
          assert next[i] == groups[i];
        }
      }
      forall i | 0 <= i < |groups| && (forall k :: 0 <= k < FirstFailure(replies) ==> snapshot[k].groupId != groups[i].groupId)
        ensures r[i] == groups[i]
      {
        forall l | 0 <= l < FirstFailure(restReplies) ensures rest[l].groupId != next[i].groupId {
          assert rest[l] == snapshot[l + 1];
        }
      }
    }
  }

  /** A tick over the whole registry, whose group ids are unique: rows
      before the first failing check get 0 or 3 according to that row's
      check, later rows are untouched. */
  lemma TickOutcome(groups: seq<GroupRow>, replies: seq<seq<Answer>>)
    requires UniqueGroupIds(groups) && |replies| == |groups|
    ensures var r := Tick(groups, Project(groups), replies);
      && |r| == |groups|
      && forall i :: 0 <= i < |groups| ==>
           r[i] == if i < FirstFailure(replies) then groups[i].(status := TickStatus(replies[i])) else groups[i]
  {
    var snapshot := Project(groups);
    TickEffect(groups, snapshot, replies);
    var r := Tick(groups, snapshot, replies);
    forall i | 0 <= i < |groups|
      ensures r[i] == if i < FirstFailure(replies) then groups[i].(status := TickStatus(replies[i])) else groups[i]
    {
      if i < FirstFailure(replies) {
        assert snapshot[i].groupId == groups[i].groupId;
      } else {
        forall k | 0 <= k < FirstFailure(replies) ensures snapshot[k].groupId != groups[i].groupId {
          assert k != i;
        }
      }
    }
  }

  /** `check_statuses`, one tick: reads every group, asks the backends
      about each in turn and writes 0 when all of them are ready and 3
      otherwise. The first check that raises ends the tick; the exception is
      logged and goes no further. */
  method CheckStatuses(registry: MD.Database, mmgr: MicroserviceManager, replies: seq<seq<Answer>>)
    requires registry.Valid()
    requires |replies| == |registry.groups|
    requires forall k :: 0 <= k < |replies| ==> |replies[k]| == |mmgr.services|
    modifies registry
    ensures registry.Valid()
    ensures registry.groups == Tick(old(registry.groups), Project(old(registry.groups)), replies)
    ensures registry.users == old(registry.users) && registry.links == old(registry.links)
  {
    var groups := registry.GetAllGroups();
    var k := 0;
    while k < |groups|
      invariant 0 <= k <= |groups|
      invariant registry.Valid()
      invariant Tick(registry.groups, groups[k..], replies[k..]) == Tick(old(registry.groups), groups, replies)
      invariant registry.users == old(registry.users) && registry.links == old(registry.links)
    {
      var ready, _ := mmgr.CheckStatus(replies[k]);
      TickStep(registry.groups, groups, replies, k);
      if ready.Failure? {
        return;
      }
      var status := if ready.value then READY else TICK_NOT_READY;
      registry.UpdateGroupStatus(groups[k].groupId, status);
      k := k + 1;
    }
  }

  /** One step of the tick, from the `k`-th entry of the snapshot on. */
  lemma TickStep(groups: seq<GroupRow>, snapshot: seq<GroupAndStatus>, replies: seq<seq<Answer>>, k: nat)
    requires |replies| == |snapshot| && k < |snapshot|
    ensures Readiness(replies[k]).Failure? ==> Tick(groups, snapshot[k..], replies[k..]) == groups
    ensures Readiness(replies[k]).Success? ==>
              Tick(groups, snapshot[k..], replies[k..]) ==
              Tick(SetStatus(groups, snapshot[k].groupId, TickStatus(replies[k])), snapshot[k + 1..], replies[k + 1..])
  {
    assert snapshot[k..][1..] == snapshot[k + 1..] && replies[k..][1..] == replies[k + 1..];
  }

  // ---------------------------------------------------------------------
  // Handlers that change state

  /** `verify`: checks the signature of the launch parameters and stores the
      token when it is valid. A missing `sign` raises outside the handler's
      `try`, and an invalid signature makes the handler return nothing;
      both end in a server error. `storeFails` stands for a database error
      while storing, which the handler reports as 2. */
  method Verify(creds: LD.Database, query: seq<Sig.Item>, secret: string, crypto: Sig.Crypto,
                token: string, now: int, storeFails: bool) returns (reply: Reply)
    requires creds.Valid()
    modifies creds
    ensures creds.Valid()
    ensures Sig.IsValid(query, secret, crypto) != Success(true) ==> reply == ServerError
    ensures Sig.IsValid(query, secret, crypto) != Success(true) || storeFails ==>
              creds.tokens == old(creds.tokens)
    ensures Sig.IsValid(query, secret, crypto) == Success(true) && storeFails ==> reply == Status(InternalError)
    ensures reply == Status(OK) <==> Sig.IsValid(query, secret, crypto) == Success(true) && !storeFails
    ensures reply == Status(OK) ==>
              creds.tokens == old(creds.tokens) + [LD.TokenRow(creds.makeSha256(token), now)] && creds.IsValidToken(token)
    ensures creds.groups == old(creds.groups)
  {
    var valid := Sig.IsValid(query, secret, crypto);
    if valid != Success(true) {
      return ServerError;
    }
    if storeFails {
      return Status(InternalError);
    }
    creds.AddToken(token, now);
    reply := Status(OK);
  }

  /** `renew`: an unknown old token is a token error. For a known one the
      handler calls `update_token`, which the credential store does not
      define; the call raises inside the `try`, so the answer is 2 and
      nothing changes. */
  method Renew(creds: LD.Database, oldToken: string, newToken: string) returns (reply: Reply)
    ensures !creds.IsValidToken(oldToken) ==> reply == Status(TokenError)
    ensures creds.IsValidToken(oldToken) ==> reply == Status(InternalError)
  {
    if !creds.IsValidToken(oldToken) {
      return Status(TokenError);
    }
    reply := Status(InternalError);
  }

  /** `add_group`: with a known token, registers the group under the token
      (passed where the registry expects the user id), then sends the
      group's posts to every backend. Both steps report failure as 2; the
      registered group stays when a later step fails. `contacted` is the
      number of backends that received the posts. */
  method AddGroup(registry: MD.Database, creds: LD.Database, mmgr: MicroserviceManager,
                  gid: int, token: string, answers: seq<Answer>) returns (reply: Reply, contacted: nat)
    requires registry.Valid()
    requires |answers| == |mmgr.services|
    modifies registry
    ensures registry.Valid()
    ensures !creds.IsValidToken(token) ==>
              reply == Status(TokenError) && contacted == 0 && unchanged(registry)
    ensures creds.IsValidToken(token) ==>
              registry.groups == MD.InsertIfAbsent(old(registry.groups), gid) && FindGroup(registry.groups, gid).Some?
    ensures creds.IsValidToken(token) && old(FindGroup(registry.groups, gid)).None? ==>
              |registry.groups| == |old(registry.groups)| + 1 && registry.GetGroupStatus(gid) == NOT_READY
    ensures creds.IsValidToken(token) && old(FindGroup(registry.groups, gid)).Some? ==>
              registry.GetGroupStatus(gid) == old(registry.GetGroupStatus(gid))
    ensures reply == Status(OK) <==>
              creds.IsValidToken(token) && old(registry.IsValidUserId(token)) && !AnyAborts(answers)
    ensures reply != Status(OK) && creds.IsValidToken(token) ==> reply == Status(InternalError)
    ensures creds.IsValidToken(token) && !old(registry.IsValidUserId(token)) ==>
              contacted == 0 && registry.links == old(registry.links)
    ensures registry.users == old(registry.users)
    ensures creds.IsValidToken(token) && old(registry.IsValidUserId(token)) ==>
              registry.links == old(registry.links) +
                [MD.LinkRow(registry.users[MD.FindUser(registry.users, token).value].id,
                            registry.groups[FindGroup(registry.groups, gid).value].id)] &&
              contacted == if AnyAborts(answers) then FirstAbort(answers) + 1 else |answers|
  {
    if !creds.IsValidToken(token) {
      return Status(TokenError), 0;
    }
    var stored := registry.AddGroup(gid, token);
    if stored.Fail? {
      return Status(InternalError), 0;
    }
    var sent;
    sent, contacted := mmgr.AddGroup(answers);
    if sent.Fail? {
      return Status(InternalError), contacted;
    }
    reply := Status(OK);
  }

  // ---------------------------------------------------------------------
  // Read-only handlers

  /** A list index as Python normalises a slice bound: counted from the end
      when negative, then clamped to the list. */
  function SliceBound(i: int, n: nat): (b: nat)
    ensures b <= n
    ensures 0 <= i <= n ==> b == i
    ensures i > n ==> b == n
    ensures -(n as int) <= i < 0 ==> b == n + i
    ensures i < -(n as int) ==> b == 0
  {
    if i < 0 then (if i + n < 0 then 0 else i + n)
    else if i > n then n else i
  }

  /** `s[start:stop]` */
  function PySlice<T>(s: seq<T>, start: int, stop: int): (r: seq<T>)
    ensures |r| <= |s|
  {
    var a, b := SliceBound(start, |s|), SliceBound(stop, |s|);
    if b <= a then [] else s[a..b]
  }

  /** A page `[offset:offset+count]` with a non-negative offset and count:
      the elements from `offset` on, at most `count` of them, in order. */
  lemma PageContents<T>(s: seq<T>, offset: nat, count: nat)
    ensures var r := PySlice(s, offset, offset + count);
      && |r| == (if offset >= |s| then 0 else if offset + count > |s| then |s| - offset else count)
      && forall j :: 0 <= j < |r| ==> r[j] == s[offset + j]
  {
  }

  /** `get_groups`: with a known token, either the status of one group
      (2 when it is not registered) or the groups registered under the
      token, counted in full and cut to the page `[offset:offset+count]`
      when both bounds are given. An unknown token, or a token that is not
      a user id of the registry, gets an empty list. */
  function GetGroups(registry: MD.Database, creds: LD.Database, token: string,
                     groupId: Option<int>, offset: Option<int>, count: Option<int>): (r: GroupsReply)
    reads registry, creds
    ensures !creds.IsValidToken(token) ==> r == GroupsReply(TokenError, [], 0)
    ensures creds.IsValidToken(token) && groupId.Some? ==>
              r == GroupsReply(OK, [GroupAndStatus(groupId.value, registry.GetGroupStatus(groupId.value))], 1)
    ensures creds.IsValidToken(token) && groupId.None? && !registry.IsValidUserId(token) ==>
              r == GroupsReply(InternalError, [], 0)
    ensures creds.IsValidToken(token) && groupId.None? && registry.IsValidUserId(token) ==>
              && r.status == OK
              && r.count == |registry.GetOwnedGroups(token).value|
              && (offset.None? || count.None? ==> r.data == registry.GetOwnedGroups(token).value)
              && (offset.Some? && count.Some? ==>
                    r.data == PySlice(registry.GetOwnedGroups(token).value, offset.value, offset.value + count.value))
  {
    if !creds.IsValidToken(token) then GroupsReply(TokenError, [], 0)
    else if groupId.Some? then
      GroupsReply(OK, [GroupAndStatus(groupId.value, registry.GetGroupStatus(groupId.value))], 1)
    else match registry.GetOwnedGroups(token)
      case Failure(_) => GroupsReply(InternalError, [], 0)
      case Success(owned) =>
        var data := if offset.Some? && count.Some? then PySlice(owned, offset.value, offset.value + count.value) else owned;
        GroupsReply(OK, data, |owned|)
  }

  /** `generate_text`, `generate_image` and `generate_meme_template`, which
      differ only in the backend they name: with a known token and a ready
      group, the answer of that backend; a group that is not ready gets 3,
      and a failing backend (or no backend of that name) gets 2. */
  function GenerateContent(registry: MD.Database, creds: LD.Database, services: seq<Service>,
                           handler: Generator, token: string, gid: int, answer: Answer): (r: DataReply)
    reads registry, creds
    ensures !creds.IsValidToken(token) ==> r == DataReply("", TokenError)
    ensures creds.IsValidToken(token) && registry.GetGroupStatus(gid) != READY ==> r == DataReply("", NotReady)
    ensures r.status == OK <==>
              && creds.IsValidToken(token) && registry.GetGroupStatus(gid) == READY
              && FindService(services, BackendName(handler)).Some? && !Aborts(answer)
    ensures r.status == OK && answer.Other? ==> r.data == answer.text
    ensures r.status == OK && answer == Ok ==> r.data == "OK"
    ensures r.status != OK ==> r.data == ""
    ensures r.status == InternalError <==>
              && creds.IsValidToken(token) && registry.GetGroupStatus(gid) == READY
              && (FindService(services, BackendName(handler)).None? || Aborts(answer))
    ensures r.status in {OK, TokenError, InternalError, NotReady}
  {
    if !creds.IsValidToken(token) then DataReply("", TokenError)
    else if registry.GetGroupStatus(gid) != READY then DataReply("", NotReady)
    else match GenerateResult(services, BackendName(handler), answer)
      case Success(text) => DataReply(text, OK)
      case Failure(_) => DataReply("", InternalError)
  }
}
