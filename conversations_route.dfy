/**
 * The /api/conversations group routes: group creation in one transaction,
 * member removal by the owner, member addition without any check, and role
 * assignment by an owner or admin.
 */
module ConversationsRoute {
  import opened Common
  import opened Store
  import opened Http
  import ConversationModel

  /** The participant rows (c, u) of the users us, in order. */
  function Pairs(c: ConvId, us: seq<UserId>): (r: seq<Participant>)
    ensures |r| == |us|
    ensures forall i :: 0 <= i < |us| ==> r[i] == (c, us[i])
  {
    if us == [] then [] else [(c, us[0])] + Pairs(c, us[1..])
  }

  /**
   * Whether a participant row (c, u) can be inserted for every u of us in
   * turn: c exists (once there is a row to insert), no user repeats and
   * none is a participant of c yet.
   */
  predicate Insertable(t: Tables, c: ConvId, us: seq<UserId>)
  {
    && (|us| > 0 ==> c in t.conversations)
    && NoDuplicates(us)
    && (forall i :: 0 <= i < |us| ==> (c, us[i]) !in t.participants)
  }

  /**
   * `addParticipant` for each user in turn, stopping at the first insert
   * that fails; the rows inserted before it stay. `failAt` is the index of
   * an insert that hits a store failure (none when out of range).
   */
  method InsertEach(db: Db, c: ConvId, us: seq<UserId>, failAt: int) returns (err: Option<StoreError>, added: nat)
    requires db.Valid()
    modifies db
    ensures db.Valid()
    ensures added <= |us|
    ensures db.State() == old(db.State()).(participants := old(db.participants) + Pairs(c, us[..added]))
    ensures err.None? <==> Insertable(old(db.State()), c, us) && !(0 <= failAt < |us|)
    ensures err.None? ==> added == |us|
  {
    added := 0;
    while added < |us|
      invariant 0 <= added <= |us|
      invariant db.Valid()
      invariant db.State() == old(db.State()).(participants := old(db.participants) + Pairs(c, us[..added]))
      invariant Insertable(old(db.State()), c, us[..added])
      invariant !(0 <= failAt < added)
    {
      if added == failAt {
        return Some(StoreFailure("store failure")), added;
      }
      ghost var before := db.participants;
      err := db.InsertParticipant(c, us[added]);
      if err.Some? {
        assert !Insertable(old(db.State()), c, us) by {
          if c in old(db.conversations) && (c, us[added]) !in old(db.participants) {
            var k :| 0 <= k < added && Pairs(c, us[..added])[k] == (c, us[added]);
            assert us[k] == us[added];
          }
        }
        return;
      }
      forall j | 0 <= j < added ensures us[j] != us[added] {
        assert (c, us[j]) == before[|old(db.participants)| + j];
      }
      assert us[..added + 1] == us[..added] + [us[added]];
      assert Pairs(c, us[..added + 1]) == Pairs(c, us[..added]) + [(c, us[added])];
      added := added + 1;
    }
    assert us[..added] == us;
    err := None;
  }

  // ---------------------------------------------------------------------------
  // POST /group

  const EmptyGroup: string := "群聊名称和成员不能为空"
  const GroupFailed: string := "创建群聊失败"

  /** `name && members && members.length !== 0`. */
  predicate GroupRequestValid(name: Option<string>, members: Option<seq<UserId>>)
  {
    name.Some? && name.value != "" && members.Some? && |members.value| > 0
  }

  /** The tables after a committed group creation: the group row, the creator's row, then one per member. */
  function GroupTables(t: Tables, name: string, owner: UserId, members: seq<UserId>, now: Time): Tables
  {
    var c := t.nextConvId;
    t.(conversations := t.conversations[c := ConversationRow(Some(name), "group", Some(owner), now, now)],
       participants := t.participants + Pairs(c, [owner] + members),
       nextConvId := c + 1)
  }

  /**
   * POST /group: 400 without a name or members; otherwise, in one
   * transaction, the group row with the caller as owner, the caller's
   * participant row and one per member. Any failing insert (a store
   * failure at position `failAt`, 0 being the group row, or a repeated
   * participant) rolls every insert back and answers 500; on commit the
   * new group is fetched and returned with 201.
   */
  method CreateGroup(db: Db, caller: UserId, name: Option<string>, members: Option<seq<UserId>>,
                     now: Time, failAt: int)
    returns (r: Reply<Option<ConversationModel.ConversationInfo>>)
    requires db.Valid()
    modifies db
    ensures db.Valid()
    ensures !GroupRequestValid(name, members) ==>
      r == Refusal(BadRequest, EmptyGroup) && db.State() == old(db.State())
    ensures GroupRequestValid(name, members) ==>
      (r.Answer? <==> NoDuplicates([caller] + members.value) && !(0 <= failAt <= |members.value| + 1))
    ensures r.Answer? ==>
      r.status == Created
      && db.State() == GroupTables(old(db.State()), name.value, caller, members.value, now)
      && r.value == ConversationModel.FindById(db.State(), old(db.nextConvId))
    ensures GroupRequestValid(name, members) && r.Refusal? ==>
      r == Refusal(ServerError, GroupFailed) && db.State() == old(db.State()).(nextConvId := db.nextConvId)
    ensures db.nextConvId >= old(db.nextConvId)
  {
    if !GroupRequestValid(name, members) {
      return Refusal(BadRequest, EmptyGroup);
    }
    if failAt == 0 {
      return Refusal(ServerError, GroupFailed);
    }
    var snapshot := db.State();
    var us := [caller] + members.value;
    var c := db.InsertConversation(name, "group", Some(caller), now);
    assert forall i :: 0 <= i < |db.participants| ==> db.participants[i].0 != c;
    assert Insertable(db.State(), c, us) <==> NoDuplicates(us);
    var err, added := InsertEach(db, c, us, failAt - 1);
    if err.Some? {
      RollbackKeepsConsistent(snapshot, db.State());
      db.Rollback(snapshot);
      return Refusal(ServerError, GroupFailed);
    }
    assert us[..added] == us;
    r := Answer(Created, ConversationModel.FindById(db.State(), c));
  }

  /** The creator of a new group owns it, takes part in it, and so do exactly the listed members. */
  lemma GroupMembership(t: Tables, name: string, owner: UserId, members: seq<UserId>, now: Time, u: UserId)
    ensures var t' := GroupTables(t, name, owner, members, now);
      var c := t.nextConvId;
      t'.conversations[c].kind == "group" && t'.conversations[c].ownerId == Some(owner)
      && ((c, u) in t'.participants <==> (c, u) in t.participants || u == owner || u in members)
  {
    var c := t.nextConvId;
    var added := Pairs(c, [owner] + members);
    if u in members {
      var i :| 0 <= i < |members| && members[i] == u;
      assert added[i + 1] == (c, u);
    }
    assert added[0] == (c, owner);
  }

  // ---------------------------------------------------------------------------
  // PUT /group/:id/members/:userId/role

  const NoRolePermission: string := "没有权限设置角色"
  const RoleSet: string := "角色设置成功"
  const RoleFailed: string := "设置角色失败"

  /** The requester's role in c, 'member' by default, is owner or admin. */
  predicate MaySetRole(t: Tables, c: ConvId, requester: UserId)
  {
    ConversationModel.IsAdminRole(ConversationModel.GetRole(t, c, requester))
  }

  /** The tables after one set-role request, whatever its outcome. */
  function AfterSetRole(t: Tables, c: ConvId, requester: UserId, target: UserId, role: Option<string>): (r: Tables)
    ensures r.roles.Keys <= t.roles.Keys + {(c, target)}
    ensures r == t || MaySetRole(t, c, requester)
  {
    if MaySetRole(t, c, requester) && role.Some? then t.(roles := t.roles[(c, target) := role.value]) else t
  }

  /**
   * PUT /group/:id/members/:userId/role: 403 unless the requester is an
   * owner or admin of the group; an absent role makes the driver throw
   * (500); otherwise the target's role row is upserted.
   */
  method SetMemberRole(db: Db, c: ConvId, requester: UserId, target: UserId, role: Option<string>)
    returns (r: Reply<string>)
    requires db.Valid()
    modifies db
    ensures db.Valid()
    ensures db.State() == AfterSetRole(old(db.State()), c, requester, target, role)
    ensures !MaySetRole(old(db.State()), c, requester) ==> r == Refusal(Forbidden, NoRolePermission)
    ensures MaySetRole(old(db.State()), c, requester) ==>
      r == if role.Some? then Answer(Success, RoleSet) else Refusal(ServerError, RoleFailed)
  {
    if !MaySetRole(db.State(), c, requester) {
      return Refusal(Forbidden, NoRolePermission);
    }
    if role.None? {
      return Refusal(ServerError, RoleFailed);
    }
    ConversationModel.SetRole(db, c, target, role.value);
    r := Answer(Success, RoleSet);
  }

  /** The tables after a series of set-role requests (requester, target, role) on c. */
  function AfterSetRoles(t: Tables, c: ConvId, requests: seq<(UserId, UserId, Option<string>)>): Tables
    decreases |requests|
  {
    if requests == [] then t
    else AfterSetRoles(AfterSetRole(t, c, requests[0].0, requests[0].1, requests[0].2), c, requests[1..])
  }

  /** No role row of conversation c. */
  predicate NoRolesIn(t: Tables, c: ConvId)
  {
    forall p :: p in t.roles ==> p.0 != c
  }

  /**
   * As written, group creation writes no role row, so in a new group every
   * requester, the creator included, is a 'member' and is refused: no
   * series of set-role requests ever assigns a role there.
   */
  lemma {:induction false} RolesNeverSetInNewGroup(t: Tables, name: string, owner: UserId, members: seq<UserId>,
                                                   now: Time, requests: seq<(UserId, UserId, Option<string>)>)
    requires NoRolesIn(t, t.nextConvId)
    ensures var t' := GroupTables(t, name, owner, members, now);
      AfterSetRoles(t', t.nextConvId, requests) == t'
  {
    RolesStayEmpty(GroupTables(t, name, owner, members, now), t.nextConvId, requests);
  }

  lemma {:induction false} RolesStayEmpty(t: Tables, c: ConvId, requests: seq<(UserId, UserId, Option<string>)>)
    requires NoRolesIn(t, c)
    ensures AfterSetRoles(t, c, requests) == t
    decreases |requests|
  {
    if requests != [] {
      var q := requests[0];
      assert (c, q.0) !in t.roles;
      assert !MaySetRole(t, c, q.0);
      RolesStayEmpty(t, c, requests[1..]);
    }
  }

  /** Group creation with the creator's 'owner' role row written inside the same transaction. */
  function OwnedGroupTables(t: Tables, name: string, owner: UserId, members: seq<UserId>, now: Time): Tables
  {
    GroupTables(t, name, owner, members, now).(roles := t.roles[(t.nextConvId, owner) := "owner"])
  }

  /**
   * The group creation route with the owner role row the creator is meant
   * to receive: the same checks and rows as CreateGroup, plus
   * ('owner') for (group, caller) before the commit.
   */
  method CreateGroupWithOwner(db: Db, caller: UserId, name: Option<string>, members: Option<seq<UserId>>,
                              now: Time, failAt: int)
    returns (r: Reply<Option<ConversationModel.ConversationInfo>>)
    requires db.Valid()
    modifies db
    ensures db.Valid()
    ensures !GroupRequestValid(name, members) ==>
      r == Refusal(BadRequest, EmptyGroup) && db.State() == old(db.State())
    ensures GroupRequestValid(name, members) ==>
      (r.Answer? <==> NoDuplicates([caller] + members.value) && !(0 <= failAt <= |members.value| + 1))
    ensures r.Answer? ==>
      r.status == Created
      && db.State() == OwnedGroupTables(old(db.State()), name.value, caller, members.value, now)
      && r.value == ConversationModel.FindById(db.State(), old(db.nextConvId))
    ensures GroupRequestValid(name, members) && r.Refusal? ==>
      r == Refusal(ServerError, GroupFailed) && db.State() == old(db.State()).(nextConvId := db.nextConvId)
  {
    var c := db.nextConvId;
    r := CreateGroup(db, caller, name, members, now, failAt);
    if r.Answer? {
      ConversationModel.SetRole(db, c, caller, "owner");
      r := Answer(Created, ConversationModel.FindById(db.State(), c));
    }
  }

  /**
   * With the owner row written, the creator may set roles in the new group,
   * and a member the creator makes admin may too.
   */
  lemma OwnerMaySetRole(t: Tables, name: string, owner: UserId, members: seq<UserId>, now: Time,
                        u: UserId, role: string)
    ensures var t' := OwnedGroupTables(t, name, owner, members, now);
      MaySetRole(t', t.nextConvId, owner)
      && MaySetRole(AfterSetRole(t', t.nextConvId, owner, u, Some("admin")), t.nextConvId, u)
  {
  }

  // ---------------------------------------------------------------------------
  // DELETE /group/:id/members/:userId

  const NoPermission: string := "没有权限执行此操作"
  const MemberRemoved: string := "成员已移除"

  /** findById finds the conversation and its owner_id is the requester. */
  predicate MayRemove(t: Tables, c: ConvId, requester: UserId)
  {
    var info := ConversationModel.FindById(t, c);
    info.Some? && info.value.row.ownerId == Some(requester)
  }

  /** Only the recorded owner of an existing conversation with a live member may remove members. */
  lemma MayRemoveOnlyOwner(t: Tables, c: ConvId, requester: UserId)
    ensures MayRemove(t, c, requester) <==>
      c in t.conversations && t.conversations[c].ownerId == Some(requester)
      && exists u :: (c, u) in t.participants && u in t.users
  {
  }

  /** The creator of a group, having a user row, passes the owner check there. */
  lemma CreatorMayRemove(t: Tables, name: string, owner: UserId, members: seq<UserId>, now: Time)
    requires owner in t.users
    ensures MayRemove(GroupTables(t, name, owner, members, now), t.nextConvId, owner)
  {
    GroupMembership(t, name, owner, members, now, owner);
    MayRemoveOnlyOwner(GroupTables(t, name, owner, members, now), t.nextConvId, owner);
  }

  /** DELETE /group/:id/members/:userId: 403 unless the requester owns the group, else the row goes. */
  method RemoveMember(db: Db, c: ConvId, requester: UserId, target: UserId) returns (r: Reply<string>)
    requires db.Valid()
    modifies db
    ensures db.Valid()
    ensures MayRemove(old(db.State()), c, requester) ==>
      r == Answer(Success, MemberRemoved)
      && db.State() == old(db.State()).(participants := Without(old(db.participants), (c, target)))
    ensures !MayRemove(old(db.State()), c, requester) ==>
      r == Refusal(Forbidden, NoPermission) && db.State() == old(db.State())
  {
    if !MayRemove(db.State(), c, requester) {
      return Refusal(Forbidden, NoPermission);
    }
    ConversationModel.RemoveParticipant(db, c, target);
    r := Answer(Success, MemberRemoved);
  }

  // ---------------------------------------------------------------------------
  // POST /group/:id/members

  const MembersAdded: string := "添加成员成功"
  const AddFailed: string := "添加群成员失败"

  /**
   * POST /group/:id/members: addParticipant for each listed member, with
   * no check on who asks and no transaction, so the rows inserted before a
   * failure stay. An absent list throws at once (500).
   */
  method AddMembers(db: Db, c: ConvId, members: Option<seq<UserId>>, failAt: int)
    returns (r: Reply<string>, added: nat)
    requires db.Valid()
    modifies db
    ensures db.Valid()
    ensures members.None? ==> r == Refusal(ServerError, AddFailed) && db.State() == old(db.State())
    ensures members.Some? ==>
      added <= |members.value|
      && db.State() == old(db.State()).(participants := old(db.participants) + Pairs(c, members.value[..added]))
      && (r.Answer? <==> Insertable(old(db.State()), c, members.value) && !(0 <= failAt < |members.value|))
    ensures r.Answer? ==> r == Answer(Success, MembersAdded) && added == |members.value|
    ensures r.Refusal? ==> r == Refusal(ServerError, AddFailed)
  {
    if members.None? {
      return Refusal(ServerError, AddFailed), 0;
    }
    var err;
    err, added := InsertEach(db, c, members.value, failAt);
    r := if err.None? then Answer(Success, MembersAdded) else Refusal(ServerError, AddFailed);
  }
}
