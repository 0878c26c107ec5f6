/** Claims about every run of the account handlers. */
module AccountsRuns {
  import opened Wrappers
  import opened Permissions
  import opened Models
  import opened Database
  import opened Accounts
  import opened Filenames

  datatype Step =
    | CreateKey(actor: UserId, keyId: KeyId, basicPermissions: bool, menuDisabled: bool)
    | DeleteKey(actor: UserId, keyId: KeyId, now: int)
    | ModifyKey(actor: UserId, keyId: KeyId, permission: Mask, grant: bool, now: int)
    | GenerateToken(actor: UserId, keyId: KeyId, permission: Mask, now: int)
    | CreateUser(userId: UserId, name: string, mayRequestByDefault: bool)
    | ModifyUser(actor: UserId, target: UserId, permission: Mask, grant: bool)
    | ChangeRank(actor: UserId, target: UserId, rank: nat)
    | DeleteUser(actor: UserId, target: UserId, deleteFiles: bool)
    | ChangeFileOwner(actor: UserId, fileId: FileId, newOwner: UserId, isAvailable: bool)
    | NewFile(actor: UserId, file: File)
    | CreateRequest(actor: UserId, requestId: RequestId, keyId: KeyId, limits: Limits)
    | DeleteRequest(actor: UserId, requestId: RequestId)

  /** The acting user exists, generated ids are fresh, and permissions come from the request parser. */
  predicate Enabled(a: Accounts, step: Step) {
    match step
    case CreateKey(actor, keyId, _, _) => actor in a.users && keyId !in a.keys
    case GenerateToken(actor, keyId, _, _) => actor in a.users && keyId !in a.keys
    case ModifyKey(actor, _, permission, _, _) => actor in a.users && IsApiPermission(permission)
    case ModifyUser(actor, _, permission, _) => actor in a.users && IsUserPermission(permission)
    case CreateUser(userId, _, _) => userId !in a.users
    case NewFile(actor, file) => actor in a.users && file.id !in a.files
    case CreateRequest(actor, requestId, keyId, limits) =>
      actor in a.users && requestId !in a.requests && keyId !in a.keys && requestId != ""
    case _ => step.actor in a.users
  }

  function Apply(a: Accounts, step: Step): Accounts {
    if !Enabled(a, step) then a
    else
      match step
      case CreateKey(actor, keyId, basic, disabled) => AfterCreateKey(a, actor, keyId, basic, disabled).tables
      case DeleteKey(actor, keyId, now) => AfterDeleteKey(a, actor, keyId, now).tables
      case ModifyKey(actor, keyId, permission, grant, now) => AfterModifyKey(a, actor, keyId, permission, grant, now).tables
      case GenerateToken(actor, keyId, permission, now) => AfterGenerateToken(a, actor, keyId, permission, now).tables
      case CreateUser(userId, name, byDefault) => AfterCreateUser(a, userId, name, byDefault).tables
      case ModifyUser(actor, target, permission, grant) => AfterModifyUser(a, actor, target, permission, grant).tables
      case ChangeRank(actor, target, rank) => AfterChangeRank(a, actor, target, rank).tables
      case DeleteUser(actor, target, deleteFiles) => AfterDeleteUser(a, actor, target, deleteFiles).tables
      case ChangeFileOwner(actor, fileId, newOwner, isAvailable) =>
        AfterChangeFileOwner(a, actor, fileId, newOwner, isAvailable).tables
      case NewFile(actor, file) => AfterNewFile(a, actor, file).tables
      case CreateRequest(actor, requestId, keyId, limits) => AfterCreateRequest(a, actor, requestId, keyId, limits).tables
      case DeleteRequest(actor, requestId) => AfterDeleteRequest(a, actor, requestId).tables
  }

  function Run(a: Accounts, steps: seq<Step>): Accounts
    decreases |steps|
  {
    if steps == [] then a else Run(Apply(a, steps[0]), steps[1..])
  }

  // ---------------------------------------------------------------- the invariants

  /** Every row is filed under its id, and every key, request and file belongs to an existing user. */
  ghost predicate OwnersExist(a: Accounts) {
    && (forall u :: u in a.users ==> a.users[u].id == u)
    && (forall k :: k in a.keys ==> a.keys[k].id == k && a.keys[k].userId in a.users)
    && (forall r :: r in a.requests ==> a.requests[r].id == r && a.requests[r].userId in a.users)
    && (forall id :: id in a.files ==> a.files[id].id == id && a.files[id].userId in a.users)
  }

  ghost predicate KeysCovered(users: map<UserId, User>, keys: map<KeyId, ApiKey>) {
    forall k :: k in keys && keys[k].userId in users ==> Covered(users[keys[k].userId].permissions, keys[k].permissions)
  }

  ghost predicate Inv(a: Accounts) {
    OwnersExist(a) && KeysCovered(a.users, a.keys)
  }

  lemma KeysAfterUserLosesCovered(users: map<UserId, User>, keys: map<KeyId, ApiKey>, target: UserId, permission: Mask)
    requires target in users && KeysCovered(users, keys) && IsUserPermission(permission)
    ensures var user := users[target];
            KeysCovered(users[target := user.(permissions := Removed(user.permissions, permission))],
                        KeysAfterUserLoses(keys, target, permission))
  {
    forall k | k in keys && keys[k].userId == target
      ensures Covered(Removed(users[target].permissions, permission), KeysAfterUserLoses(keys, target, permission)[k].permissions)
    {
      RemoveFromUserKeepsCovered(users[target].permissions, keys[k].permissions, permission);
    }
  }

  lemma GrantedUserKeepsKeysCovered(users: map<UserId, User>, keys: map<KeyId, ApiKey>, target: UserId, permission: Mask)
    requires target in users && KeysCovered(users, keys)
    ensures KeysCovered(users[target := users[target].(permissions := Granted(users[target].permissions, permission))], keys)
  {
    forall k | k in keys && keys[k].userId == target
      ensures Covered(Granted(users[target].permissions, permission), keys[k].permissions)
    {
      GrantToUserKeepsCovered(users[target].permissions, keys[k].permissions, permission);
    }
  }

  lemma ModifyUserKeepsInv(a: Accounts, actor: UserId, target: UserId, permission: Mask, grant: bool)
    requires Inv(a) && actor in a.users && IsUserPermission(permission)
    ensures Inv(AfterModifyUser(a, actor, target, permission, grant).tables)
  {
    if target in a.users {
      if grant {
        GrantedUserKeepsKeysCovered(a.users, a.keys, target, permission);
      } else {
        KeysAfterUserLosesCovered(a.users, a.keys, target, permission);
      }
    }
  }

  lemma DemotedKeysAre(keys: map<KeyId, ApiKey>, target: UserId, k: KeyId)
    requires k in keys || k in DemotedKeys(keys, target)
    ensures DemotedKeys(keys, target).Keys == keys.Keys
    ensures DemotedKeys(keys, target)[k] ==
            if keys[k].userId == target then keys[k].(permissions := DemotedKey(keys[k].permissions)) else keys[k]
  {
    var k1 := KeysAfterUserLoses(keys, target, USER_PERM_REPLACE_UPLOADS);
    var k2 := KeysAfterUserLoses(k1, target, USER_PERM_MANAGE_USERS);
    var k3 := KeysAfterUserLoses(k2, target, USER_PERM_MANAGE_LOGS);
    assert k1.Keys == keys.Keys && k2.Keys == keys.Keys && k3.Keys == keys.Keys;
    assert k2[k].userId == k1[k].userId == keys[k].userId;
  }

  lemma DemotedKeysCovered(users: map<UserId, User>, keys: map<KeyId, ApiKey>, target: UserId, user: User)
    requires target in users && KeysCovered(users, keys) && user.permissions == PERMISSION_NONE
    ensures KeysCovered(users[target := user], DemotedKeys(keys, target))
    ensures forall k :: k in DemotedKeys(keys, target) ==>
              k in keys && DemotedKeys(keys, target)[k].id == keys[k].id && DemotedKeys(keys, target)[k].userId == keys[k].userId
  {
    forall k | k in DemotedKeys(keys, target)
      ensures k in keys && DemotedKeys(keys, target)[k].id == keys[k].id && DemotedKeys(keys, target)[k].userId == keys[k].userId
      ensures keys[k].userId == target ==> Covered(PERMISSION_NONE, DemotedKeys(keys, target)[k].permissions)
      ensures keys[k].userId != target ==> DemotedKeys(keys, target)[k] == keys[k]
    {
      DemotedKeysAre(keys, target, k);
      ExtremesAreCovered(PERMISSION_NONE, keys[k].permissions);
    }
  }

  lemma PromotedKeysCovered(users: map<UserId, User>, keys: map<KeyId, ApiKey>, target: UserId, user: User)
    requires target in users && KeysCovered(users, keys) && user.permissions == USER_PERMISSION_ALL
    ensures KeysCovered(users[target := user], keys)
  {
    forall k | k in keys && keys[k].userId == target
      ensures Covered(USER_PERMISSION_ALL, keys[k].permissions)
    {
      ExtremesAreCovered(PERMISSION_NONE, keys[k].permissions);
    }
  }

  lemma DemotionKeepsInv(a: Accounts, target: UserId, user: User)
    requires Inv(a) && target in a.users && user.id == target && user.permissions == PERMISSION_NONE
    ensures Inv(a.(users := a.users[target := user], keys := DemotedKeys(a.keys, target)))
  {
    DemotedKeysCovered(a.users, a.keys, target, user);
  }

  lemma PromotionKeepsInv(a: Accounts, target: UserId, user: User)
    requires Inv(a) && target in a.users && user.id == target && user.permissions == USER_PERMISSION_ALL
    ensures Inv(a.(users := a.users[target := user]))
  {
    PromotedKeysCovered(a.users, a.keys, target, user);
  }

  lemma ChangeRankKeepsInv(a: Accounts, actor: UserId, target: UserId, rank: nat)
    requires Inv(a) && actor in a.users
    ensures Inv(AfterChangeRank(a, actor, target, rank).tables)
  {
    if target in a.users {
      var user := a.users[target].(userLevel := rank);
      if rank == USER_LEVEL_ADMIN {
        PromotionKeepsInv(a, target, user.(permissions := USER_PERMISSION_ALL));
      } else {
        DemotionKeepsInv(a, target, user.(permissions := PERMISSION_NONE));
      }
    }
  }

  lemma DeleteUserKeepsInv(a: Accounts, actor: UserId, target: UserId, deleteFiles: bool)
    requires Inv(a) && actor in a.users
    ensures Inv(AfterDeleteUser(a, actor, target, deleteFiles).tables)
  {
  }

  lemma SavedKeyKeepsInv(a: Accounts, key: ApiKey)
    requires Inv(a) && key.userId in a.users && Covered(a.users[key.userId].permissions, key.permissions)
    ensures Inv(a.(keys := a.keys[key.id := key]))
  {
  }

  lemma ModifyKeyKeepsInv(a: Accounts, actor: UserId, keyId: KeyId, permission: Mask, grant: bool, now: int)
    requires Inv(a) && actor in a.users && IsApiPermission(permission)
    ensures Inv(AfterModifyKey(a, actor, keyId, permission, grant, now).tables)
  {
    if KeyEditError(a, actor, keyId, now).None? {
      var key := a.keys[keyId];
      var owner := a.users[key.userId].permissions;
      if HasPermission(owner, RequiredOfOwner(permission)) {
        GrantToKeyKeepsCovered(owner, key.permissions, permission);
        RemoveFromKeyKeepsCovered(owner, key.permissions, permission);
        SavedKeyKeepsInv(a, key.(permissions := Granted(key.permissions, permission)));
        SavedKeyKeepsInv(a, key.(permissions := Removed(key.permissions, permission)));
      }
    }
  }

  lemma NewKeyKeepsInv(a: Accounts, keyId: KeyId, basic: bool, actor: UserId, requestId: RequestId)
    requires Inv(a) && actor in a.users
    ensures Inv(a.(keys := a.keys[keyId := NewKey(keyId, basic, actor, requestId)]))
  {
    NewKeysAreCovered(a.users[actor].permissions);
    SavedKeyKeepsInv(a, NewKey(keyId, basic, actor, requestId));
  }

  lemma GenerateTokenKeepsInv(a: Accounts, actor: UserId, keyId: KeyId, permission: Mask, now: int)
    requires Inv(a) && actor in a.users
    ensures Inv(AfterGenerateToken(a, actor, keyId, permission, now).tables)
  {
    TokenChecksAreExact(a.users[actor].permissions, permission);
    if TokenAllowed(a.users[actor].permissions, permission) {
      SavedKeyKeepsInv(a, ApiKey(keyId, permission, now + TOKEN_LIFETIME, true, actor, ""));
    }
  }

  lemma ApplyKeepsInv(a: Accounts, step: Step)
    requires Inv(a)
    ensures Inv(Apply(a, step))
  {
    if Enabled(a, step) {
      match step
      case ModifyKey(actor, keyId, permission, grant, now) => ModifyKeyKeepsInv(a, actor, keyId, permission, grant, now);
      case ModifyUser(actor, target, permission, grant) => ModifyUserKeepsInv(a, actor, target, permission, grant);
      case ChangeRank(actor, target, rank) => ChangeRankKeepsInv(a, actor, target, rank);
      case DeleteUser(actor, target, deleteFiles) => DeleteUserKeepsInv(a, actor, target, deleteFiles);
      case GenerateToken(actor, keyId, permission, now) => GenerateTokenKeepsInv(a, actor, keyId, permission, now);
      case CreateKey(actor, keyId, basic, disabled) => NewKeyKeepsInv(a, keyId, basic, actor, "");
      case CreateRequest(actor, requestId, keyId, limits) => NewKeyKeepsInv(a, keyId, false, actor, requestId);
      case _ =>
    }
  }

  lemma {:induction false} RunKeepsInv(a: Accounts, steps: seq<Step>)
    requires Inv(a)
    ensures Inv(Run(a, steps))
    decreases |steps|
  {
    if steps == [] {
    } else {
      ApplyKeepsInv(a, steps[0]);
      RunKeepsInv(Apply(a, steps[0]), steps[1..]);
    }
  }

  /** The tables after the first start: one super admin. */
  function Initial(admin: UserId, name: string): Accounts {
    Accounts(map[admin := User(admin, name, USER_PERMISSION_ALL, USER_LEVEL_SUPER_ADMIN)], map[], map[], map[])
  }

  /**
   Main theorem: after any run every key, expired or not, that may replace files, manage users, logs or file
   requests belongs to an existing user with the matching permission.
   */
  lemma SensitiveKeysHavePermittedOwners(admin: UserId, name: string, steps: seq<Step>, k: KeyId)
    requires k in Run(Initial(admin, name), steps).keys
    ensures var a := Run(Initial(admin, name), steps);
            var key := a.keys[k];
            && key.userId in a.users
            && (HasPermission(key.permissions, API_PERM_REPLACE) ==> a.users[key.userId].Has(USER_PERM_REPLACE_UPLOADS))
            && (HasPermission(key.permissions, API_PERM_MANAGE_USERS) ==> a.users[key.userId].Has(USER_PERM_MANAGE_USERS))
            && (HasPermission(key.permissions, API_PERM_MANAGE_LOGS) ==> a.users[key.userId].Has(USER_PERM_MANAGE_LOGS))
            && (HasPermission(key.permissions, API_PERM_MANAGE_FILE_REQUESTS) ==>
                  a.users[key.userId].Has(USER_PERM_GUEST_UPLOADS))
  {
    RunKeepsInv(Initial(admin, name), steps);
  }

  /** Main theorem: after any run every key, request and file belongs to an existing user. */
  lemma NothingIsOrphaned(admin: UserId, name: string, steps: seq<Step>)
    ensures var a := Run(Initial(admin, name), steps);
            && (forall k :: k in a.keys ==> a.keys[k].userId in a.users)
            && (forall r :: r in a.requests ==> a.requests[r].userId in a.users)
            && (forall id :: id in a.files ==> a.files[id].userId in a.users)
  {
    RunKeepsInv(Initial(admin, name), steps);
  }

  // ---------------------------------------------------------------- the super admin

  ghost predicate HasSuperAdmin(a: Accounts, admin: UserId) {
    admin in a.users && a.users[admin].IsSuperAdmin() && a.users[admin].permissions == USER_PERMISSION_ALL
  }

  lemma ApplyKeepsSuperAdmin(a: Accounts, step: Step, admin: UserId)
    requires HasSuperAdmin(a, admin)
    ensures HasSuperAdmin(Apply(a, step), admin)
  {
  }

  lemma ApplyMakesNoSuperAdmin(a: Accounts, step: Step, u: UserId)
    requires u in Apply(a, step).users && Apply(a, step).users[u].IsSuperAdmin()
    ensures u in a.users && a.users[u].IsSuperAdmin()
  {
  }

  /** No run demotes or deletes the super admin, and none makes a second one. */
  lemma {:induction false} SuperAdminStays(a: Accounts, steps: seq<Step>, admin: UserId)
    requires HasSuperAdmin(a, admin)
    requires forall u :: u in a.users && a.users[u].IsSuperAdmin() ==> u == admin
    ensures HasSuperAdmin(Run(a, steps), admin)
    ensures forall u :: u in Run(a, steps).users && Run(a, steps).users[u].IsSuperAdmin() ==> u == admin
    decreases |steps|
  {
    if steps == [] {
    } else {
      var a' := Apply(a, steps[0]);
      ApplyKeepsSuperAdmin(a, steps[0], admin);
      forall u | u in a'.users && a'.users[u].IsSuperAdmin() ensures u == admin {
        ApplyMakesNoSuperAdmin(a, steps[0], u);
      }
      SuperAdminStays(a', steps[1..], admin);
    }
  }

  // ---------------------------------------------------------------- where permissions come from

  /** The mask of the acting user. */
  function ActorMask(a: Accounts, step: Step): Mask
    requires Enabled(a, step)
  {
    if step.CreateUser? then PERMISSION_NONE else a.users[step.actor].permissions
  }

  predicate IsPromotion(step: Step) {
    step.ChangeRank? && step.rank == USER_LEVEL_ADMIN
  }

  /** Apart from promotions to administrator nobody gains a permission that the acting user does not have. */
  lemma GrantsComeFromTheActor(a: Accounts, step: Step, u: UserId)
    requires Inv(a) && Enabled(a, step) && !IsPromotion(step) && u in a.users && u in Apply(a, step).users
    ensures Within(Apply(a, step).users[u].permissions, a.users[u].permissions | ActorMask(a, step))
  {
    var permission := if step.ModifyUser? then step.permission else PERMISSION_NONE;
    var change := ChangeOfMask(a, step, u, permission);
    ChangeIsWithin(change, a.users[u].permissions, ActorMask(a, step), permission);
  }

  lemma ChangeOfMask(a: Accounts, step: Step, u: UserId, permission: Mask) returns (change: MaskChange)
    requires Inv(a) && Enabled(a, step) && !IsPromotion(step) && u in a.users && u in Apply(a, step).users
    requires step.ModifyUser? ==> permission == step.permission
    ensures Apply(a, step).users[u].permissions == Changed(change, a.users[u].permissions, permission)
    ensures change.Gained? ==> HasPermission(ActorMask(a, step), permission)
  {
    if step.ModifyUser? {
      change := ChangeByModify(a, step.actor, step.target, permission, step.grant, u);
    } else {
      change := if Apply(a, step).users[u] == a.users[u] then Kept else Cleared;
    }
  }

  lemma ChangeByModify(a: Accounts, actor: UserId, target: UserId, permission: Mask, grant: bool, u: UserId) returns (change: MaskChange)
    requires actor in a.users && u in a.users
    ensures var after := AfterModifyUser(a, actor, target, permission, grant).tables;
            u in after.users && after.users[u].permissions == Changed(change, a.users[u].permissions, permission)
    ensures change.Gained? ==> a.users[actor].Has(permission)
  {
    change := if AfterModifyUser(a, actor, target, permission, grant).tables.users[u] == a.users[u] then Kept
              else if grant then Gained else Lost;
  }

  ghost predicate NobodyHas(a: Accounts, permission: Mask) {
    forall u :: u in a.users ==> !a.users[u].Has(permission)
  }

  lemma StepInventsNoPermission(a: Accounts, step: Step, permission: Mask)
    requires Inv(a) && NobodyHas(a, permission) && !IsPromotion(step)
    requires IsUserPermission(permission) && permission != USER_PERM_GUEST_UPLOADS
    ensures NobodyHas(Apply(a, step), permission)
  {
    if Enabled(a, step) {
      forall u | u in Apply(a, step).users
        ensures !Apply(a, step).users[u].Has(permission)
      {
        if u in a.users {
          GrantsComeFromTheActor(a, step, u);
          if !step.CreateUser? {
            AbsentStaysAbsent(Apply(a, step).users[u].permissions, a.users[u].permissions, ActorMask(a, step), permission);
          }
        } else {
          NewUsersHaveGuestUploadsAtMost(permission);
        }
      }
    }
  }

  /** A permission that nobody has is never handed out, in any run without a promotion to administrator. */
  lemma {:induction false} PermissionsAreNotInvented(a: Accounts, steps: seq<Step>, permission: Mask)
    requires Inv(a) && NobodyHas(a, permission) && forall k :: 0 <= k < |steps| ==> !IsPromotion(steps[k])
    requires IsUserPermission(permission) && permission != USER_PERM_GUEST_UPLOADS
    ensures NobodyHas(Run(a, steps), permission)
    decreases |steps|
  {
    if steps == [] {
    } else {
      StepInventsNoPermission(a, steps[0], permission);
      ApplyKeepsInv(a, steps[0]);
      PermissionsAreNotInvented(Apply(a, steps[0]), steps[1..], permission);
    }
  }

  // ---------------------------------------------------------------- deleting a user

  /** Without deleteFiles every file and request survives, with the deleted user's now owned by the acting user. */
  lemma DeleteUserMovesFiles(a: Accounts, actor: UserId, target: UserId)
    requires Inv(a) && actor in a.users && UserEditError(a, actor, target).None?
    ensures var a' := AfterDeleteUser(a, actor, target, false).tables;
            && a'.files.Keys == a.files.Keys && a'.requests.Keys == a.requests.Keys
            && (forall id :: id in a.files ==>
                               a'.files[id] == a.files[id].(userId := if a.files[id].userId == target then actor else a.files[id].userId))
            && (forall r :: r in a.requests ==>
                              a'.requests[r] == a.requests[r].(userId := if a.requests[r].userId == target then actor else a.requests[r].userId))
  {
  }

  /** With deleteFiles exactly the deleted user's files and requests go, and exactly uploads to these requests are marked as deleted. */
  lemma DeleteUserDropsFiles(a: Accounts, actor: UserId, target: UserId)
    requires Inv(a) && actor in a.users && UserEditError(a, actor, target).None?
    ensures var a' := AfterDeleteUser(a, actor, target, true).tables;
            && (forall id :: id in a'.files <==> id in a.files && a.files[id].userId != target)
            && (forall r :: r in a'.requests <==> r in a.requests && a.requests[r].userId != target)
            && (forall r :: r in a'.requests ==> a'.requests[r] == a.requests[r])
            && (forall id :: id in a'.files ==>
                               var upload := a.files[id].uploadRequestId;
                               if upload in a.requests && a.requests[upload].userId == target
                               then a'.files[id] == a.files[id].(expireAt := 0, unlimitedTime := false) else a'.files[id] == a.files[id])
  {
  }

  /** Uploads to a file request need the valid key of a file request, and it has to be the one the request names. */
  predicate IsUsable(a: Accounts, r: RequestId, now: int) {
    && r in a.requests
    && IsValidKey(a, a.requests[r].apiKey, now)
    && a.keys[a.requests[r].apiKey].uploadRequestId != ""
  }

  /**
   Moving the requests of a deleted user to the acting user keeps them, but keys are deleted with their user: of
   the requests that could be used before, exactly those can still be used whose key belongs to somebody else.
   */
  lemma MovedRequestsLoseTheirKey(a: Accounts, actor: UserId, target: UserId, r: RequestId, now: int)
    requires Inv(a) && actor in a.users && UserEditError(a, actor, target).None? && IsUsable(a, r, now)
    ensures var a' := AfterDeleteUser(a, actor, target, false).tables;
            r in a'.requests && (IsUsable(a', r, now) <==> a.keys[a.requests[r].apiKey].userId != target)
  {
  }

  /** The key that was made for a request belongs to the owner of the request. */
  ghost predicate RequestKeysMatch(a: Accounts) {
    && "" !in a.requests
    && forall r :: r in a.requests && a.requests[r].apiKey in a.keys && a.keys[a.requests[r].apiKey].uploadRequestId == r ==>
      a.keys[a.requests[r].apiKey].userId == a.requests[r].userId
  }

  lemma ApplyKeepsRequestKeys(a: Accounts, step: Step)
    requires Inv(a) && RequestKeysMatch(a)
    ensures RequestKeysMatch(Apply(a, step))
  {
    if step.ChangeRank? && Enabled(a, step) {
      forall k | k in a.keys
        ensures k in DemotedKeys(a.keys, step.target)
        ensures DemotedKeys(a.keys, step.target)[k].userId == a.keys[k].userId
        ensures DemotedKeys(a.keys, step.target)[k].uploadRequestId == a.keys[k].uploadRequestId
      {
        DemotedKeysAre(a.keys, step.target, k);
      }
    }
  }

  lemma {:induction false} RunKeepsRequestKeys(a: Accounts, steps: seq<Step>)
    requires Inv(a) && RequestKeysMatch(a)
    ensures Inv(Run(a, steps)) && RequestKeysMatch(Run(a, steps))
    decreases |steps|
  {
    if steps == [] {
    } else {
      ApplyKeepsInv(a, steps[0]);
      ApplyKeepsRequestKeys(a, steps[0]);
      RunKeepsRequestKeys(Apply(a, steps[0]), steps[1..]);
    }
  }

  /** So in any run the requests that stop working are exactly those of the deleted user. */
  lemma MovedRequestsInAnyRun(admin: UserId, name: string, steps: seq<Step>, actor: UserId, target: UserId, r: RequestId, now: int)
    requires var a := Run(Initial(admin, name), steps);
             && actor in a.users && UserEditError(a, actor, target).None?
             && IsUsable(a, r, now) && a.keys[a.requests[r].apiKey].uploadRequestId == r
    ensures var a := Run(Initial(admin, name), steps);
            IsUsable(AfterDeleteUser(a, actor, target, false).tables, r, now) <==> a.requests[r].userId != target
  {
    RunKeepsRequestKeys(Initial(admin, name), steps);
    MovedRequestsLoseTheirKey(Run(Initial(admin, name), steps), actor, target, r, now);
  }

  /** A user makes a request and is deleted: the administrator has the request, and nobody can upload to it. */
  lemma AMovedRequestCannotBeUsed(admin: UserId, user: UserId, r: RequestId, k: KeyId, limits: Limits, now: int)
    requires admin != user && r != ""
    ensures var a := Run(Initial(admin, "admin"), [CreateUser(user, "guest", false), CreateRequest(user, r, k, limits)]);
            var a' := Apply(a, DeleteUser(admin, user, false));
            IsUsable(a, r, now) && r in a'.requests && a'.requests[r].userId == admin && !IsUsable(a', r, now)
  {
    var start := Initial(admin, "admin");
    var steps := [CreateUser(user, "guest", false), CreateRequest(user, r, k, limits)];
    ARequestIsMade(admin, user, r, k, limits);
    RunKeepsInv(start, steps);
    var a := Run(start, steps);
    assert UserEditError(a, admin, user).None? && IsUsable(a, r, now);
    MovedRequestsLoseTheirKey(a, admin, user, r, now);
  }

  lemma ARequestIsMade(admin: UserId, user: UserId, r: RequestId, k: KeyId, limits: Limits)
    requires admin != user && r != ""
    ensures Run(Initial(admin, "admin"), [CreateUser(user, "guest", false), CreateRequest(user, r, k, limits)])
            == Accounts(map[admin := User(admin, "admin", USER_PERMISSION_ALL, USER_LEVEL_SUPER_ADMIN),
                            user := User(user, "guest", PERMISSION_NONE, USER_LEVEL_USER)],
                        map[k := NewKey(k, false, user, r)], map[r := FileRequest(r, user, k, limits)], map[])
  {
    var start, steps := Initial(admin, "admin"), [CreateUser(user, "guest", false), CreateRequest(user, r, k, limits)];
    AsciiLength("guest");
    var a1 := Apply(start, steps[0]);
    var a2 := Apply(a1, steps[1]);
    assert steps[1..] == [steps[1]] && steps[1..][1..] == [];
    assert Run(start, steps) == Run(a1, [steps[1]]) == Run(a2, []) == a2;
    assert user in a1.users;
    assert a2.keys == map[k := NewKey(k, false, user, r)] && a2.requests == map[r := FileRequest(r, user, k, limits)];
    assert a2.users == map[admin := User(admin, "admin", USER_PERMISSION_ALL, USER_LEVEL_SUPER_ADMIN),
                           user := User(user, "guest", PERMISSION_NONE, USER_LEVEL_USER)];
  }
}
