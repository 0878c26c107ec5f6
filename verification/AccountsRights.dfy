/** Who may do what to the accounts, and what exactly each handler leaves behind. */
module AccountsRights {
  import opened Wrappers
  import opened Permissions
  import opened Models
  import opened Database
  import opened Filenames
  import opened Accounts
  import opened AccountsRuns

  // ---------------------------------------------------------------- single permissions

  /** The names of the permissions by bit, from the lowest on. */
  const API_PERMISSION_NAMES: seq<string> := [
    "PERM_VIEW", "PERM_UPLOAD", "PERM_DELETE", "PERM_API_MOD", "PERM_EDIT", "PERM_REPLACE", "PERM_MANAGE_USERS",
    "PERM_MANAGE_LOGS", "PERM_MANAGE_FILE_REQUESTS", "PERM_DOWNLOAD"]

  const USER_PERMISSION_NAMES: seq<string> := [
    "PERM_REPLACE", "PERM_LIST", "PERM_EDIT", "PERM_REPLACE_OTHER", "PERM_DELETE", "PERM_LOGS", "PERM_API", "PERM_USERS",
    "PERM_GUEST_UPLOAD"]

  function Bit(i: nat): Mask
    requires i < 16
  {
    1 << i
  }

  lemma BitsAreSingle(i: nat)
    requires i < 10
    ensures IsApiPermission(Bit(i)) && (i < 9 ==> IsUserPermission(Bit(i)))
  {
    assert Bit(0) == 1 && Bit(1) == 2 && Bit(2) == 4 && Bit(3) == 8 && Bit(4) == 16;
    assert Bit(5) == 32 && Bit(6) == 64 && Bit(7) == 128 && Bit(8) == 256 && Bit(9) == 512;
  }

  /** Every name stands for its bit. */
  lemma NamesStandForBits(i: nat)
    ensures i < 10 ==> ApiPermissionFromString(API_PERMISSION_NAMES[i]) == Some(Bit(i))
    ensures i < 9 ==> UserPermissionFromString(USER_PERMISSION_NAMES[i]) == Some(Bit(i))
  {
    assert Bit(0) == 1 && Bit(1) == 2 && Bit(2) == 4 && Bit(3) == 8 && Bit(4) == 16;
    assert Bit(5) == 32 && Bit(6) == 64 && Bit(7) == 128 && Bit(8) == 256 && Bit(9) == 512;
  }

  /** Nothing else is a permission. */
  lemma OtherNamesAreRefused(text: string)
    ensures ApiPermissionFromString(text).Some? <==> text in API_PERMISSION_NAMES
    ensures UserPermissionFromString(text).Some? <==> text in USER_PERMISSION_NAMES
  {
  }

  // ---------------------------------------------------------------- masks, permission by permission

  lemma GrantAddsOne(mask: Mask, permission: Mask, p: Mask)
    requires IsApiPermission(permission) && IsApiPermission(p)
    ensures HasPermission(Granted(mask, permission), p) <==> HasPermission(mask, p) || p == permission
  {
  }

  lemma RemovalTakesOne(mask: Mask, permission: Mask, p: Mask)
    requires IsApiPermission(permission) && IsApiPermission(p)
    ensures HasPermission(Removed(mask, permission), p) <==> HasPermission(mask, p) && p != permission
    ensures HasPermission(Stripped(mask, permission), p) <==> HasPermission(mask, p) && p != permission
  {
  }

  const SENSITIVE_PERMISSIONS: set<Mask> :=
    {API_PERM_REPLACE, API_PERM_MANAGE_USERS, API_PERM_MANAGE_LOGS, API_PERM_MANAGE_FILE_REQUESTS}

  lemma DemotionTakesFour(key: Mask, p: Mask)
    requires IsApiPermission(p)
    ensures HasPermission(DemotedKey(key), p) <==> HasPermission(key, p) && p !in SENSITIVE_PERMISSIONS
  {
    var k1 := Stripped(key, API_PERM_REPLACE);
    var k2 := Stripped(k1, API_PERM_MANAGE_USERS);
    var k3 := Stripped(k2, API_PERM_MANAGE_LOGS);
    RemovalTakesOne(key, API_PERM_REPLACE, p);
    RemovalTakesOne(k1, API_PERM_MANAGE_USERS, p);
    RemovalTakesOne(k2, API_PERM_MANAGE_LOGS, p);
    RemovalTakesOne(k3, API_PERM_MANAGE_FILE_REQUESTS, p);
  }

  /** The API permissions that a key loses when its owner loses a user permission. */
  function LostWith(permission: Mask): set<Mask> {
    (if permission == USER_PERM_REPLACE_UPLOADS then {API_PERM_REPLACE} else {})
    + (if permission == USER_PERM_MANAGE_USERS then {API_PERM_MANAGE_USERS} else {})
    + (if permission == USER_PERM_MANAGE_LOGS then {API_PERM_MANAGE_LOGS} else {})
    + (if permission == USER_PERM_GUEST_UPLOADS then {API_PERM_MANAGE_FILE_REQUESTS} else {})
  }

  /** The key has the permissions it had, without the lost ones, and is the same in everything else. */
  ghost predicate KeyLoses(key: ApiKey, key': ApiKey, lost: set<Mask>) {
    && key' == key.(permissions := key'.permissions)
    && forall p :: IsApiPermission(p) ==> (HasPermission(key'.permissions, p) <==> HasPermission(key.permissions, p) && p !in lost)
  }

  /** Keys of the user lose these permissions, and other keys stay as they are. */
  ghost predicate KeysLose(keys: map<KeyId, ApiKey>, keys': map<KeyId, ApiKey>, userId: UserId, lost: set<Mask>) {
    && keys'.Keys == keys.Keys
    && forall k :: k in keys ==> if keys[k].userId == userId then KeyLoses(keys[k], keys'[k], lost) else keys'[k] == keys[k]
  }

  lemma StrippedKeyLoses(key: ApiKey, permission: Mask)
    requires IsApiPermission(permission)
    ensures KeyLoses(key, key.(permissions := Stripped(key.permissions, permission)), {permission})
  {
    forall p | IsApiPermission(p)
      ensures HasPermission(Stripped(key.permissions, permission), p) <==> HasPermission(key.permissions, p) && p != permission
    {
      RemovalTakesOne(key.permissions, permission, p);
    }
  }

  lemma DemotedKeyLoses(key: ApiKey)
    ensures KeyLoses(key, key.(permissions := DemotedKey(key.permissions)), SENSITIVE_PERMISSIONS)
  {
    forall p | IsApiPermission(p)
      ensures HasPermission(DemotedKey(key.permissions), p) <==> HasPermission(key.permissions, p) && p !in SENSITIVE_PERMISSIONS
    {
      DemotionTakesFour(key.permissions, p);
    }
  }

  lemma KeysLoseWith(keys: map<KeyId, ApiKey>, userId: UserId, permission: Mask)
    ensures KeysLose(keys, KeysAfterUserLoses(keys, userId, permission), userId, LostWith(permission))
  {
    forall k | k in keys && keys[k].userId == userId
      ensures KeyLoses(keys[k], KeysAfterUserLoses(keys, userId, permission)[k], LostWith(permission))
    {
      if AffectedApiPermission(permission) != PERMISSION_NONE {
        StrippedKeyLoses(keys[k], AffectedApiPermission(permission));
        assert LostWith(permission) == {AffectedApiPermission(permission)};
      }
    }
  }

  lemma DemotedKeysLose(keys: map<KeyId, ApiKey>, userId: UserId)
    ensures KeysLose(keys, DemotedKeys(keys, userId), userId, SENSITIVE_PERMISSIONS)
  {
    assert DemotedKeys(keys, userId).Keys == keys.Keys;
    forall k | k in keys
      ensures if keys[k].userId == userId then KeyLoses(keys[k], DemotedKeys(keys, userId)[k], SENSITIVE_PERMISSIONS)
              else DemotedKeys(keys, userId)[k] == keys[k]
    {
      DemotedKeysAre(keys, userId, k);
      DemotedKeyLoses(keys[k]);
    }
  }

  // ---------------------------------------------------------------- users

  /** Neither the super admin nor the acting user. */
  predicate MayBeEdited(a: Accounts, actor: UserId, target: UserId) {
    target in a.users && a.users[target].userLevel != 0 && target != actor
  }

  predicate IsAdministrator(user: User) {
    user.userLevel == 0 || user.userLevel == 1
  }

  /** Only this user is changed, and in level and permissions at most. */
  predicate OnlyUserChanges(a: Accounts, a': Accounts, target: UserId) {
    && target in a.users && a'.users.Keys == a.users.Keys
    && (forall u :: u in a.users && u != target ==> a'.users[u] == a.users[u])
    && a'.users[target].id == a.users[target].id && a'.users[target].name == a.users[target].name
    && a'.requests == a.requests && a'.files == a.files
  }

  /** A change of rank works exactly for users that may be edited, to user by everybody and to administrator by administrators. */
  lemma WhoMayChangeRanks(a: Accounts, actor: UserId, target: UserId, rank: nat)
    requires actor in a.users
    ensures var o := AfterChangeRank(a, actor, target, rank);
            && (o.error == Some(NotFound) <==> target !in a.users)
            && (o.error == Some(InvalidUserInput) <==> MayBeEdited(a, actor, target) && rank != 1 && rank != 2)
            && (o.error.None? <==> MayBeEdited(a, actor, target) && (rank == 2 || (rank == 1 && IsAdministrator(a.users[actor]))))
            && (o.error.Some? ==> o.tables == a)
  {
  }

  /** An administrator has every permission, a user none, and then none of the sensitive ones is left to the user's keys. */
  lemma WhatRanksMean(a: Accounts, actor: UserId, target: UserId, rank: nat, p: Mask)
    requires actor in a.users && IsUserPermission(p) && AfterChangeRank(a, actor, target, rank).error.None?
    ensures var a' := AfterChangeRank(a, actor, target, rank).tables;
            && OnlyUserChanges(a, a', target)
            && a'.users[target].userLevel == rank
            && (a'.users[target].Has(p) <==> rank == 1)
            && if rank == 1 then a'.keys == a.keys else KeysLose(a.keys, a'.keys, target, SENSITIVE_PERMISSIONS)
  {
    DemotedKeysLose(a.keys, target);
    AllOrNothing(p);
  }

  lemma AllOrNothing(p: Mask)
    requires IsUserPermission(p)
    ensures HasPermission(USER_PERMISSION_ALL, p) && !HasPermission(PERMISSION_NONE, p)
  {
  }

  /** Permissions of users that may be edited are granted by those who have them, and taken away by anybody. */
  lemma WhoMayChangeUsers(a: Accounts, actor: UserId, target: UserId, permission: Mask, grant: bool)
    requires actor in a.users
    ensures var o := AfterModifyUser(a, actor, target, permission, grant);
            && (o.error == Some(NotFound) <==> target !in a.users)
            && (o.error == Some(NoPermission) <==> MayBeEdited(a, actor, target) && grant && !a.users[actor].Has(permission))
            && (o.error.None? <==> MayBeEdited(a, actor, target) && (grant ==> a.users[actor].Has(permission)))
            && (o.error.Some? ==> o.tables == a)
  {
  }

  /** The mask has this permission now, or no longer, and every other one as before. */
  predicate OnlyTurns(mask: Mask, mask': Mask, permission: Mask, grant: bool, p: Mask) {
    HasPermission(mask', p) <==> if p == permission then grant else HasPermission(mask, p)
  }

  function Turned(mask: Mask, permission: Mask, grant: bool): Mask {
    if grant == HasPermission(mask, permission) then mask else if grant then Granted(mask, permission) else Removed(mask, permission)
  }

  lemma TurningTurnsOne(mask: Mask, permission: Mask, grant: bool, p: Mask)
    requires IsApiPermission(permission) && IsApiPermission(p)
    ensures OnlyTurns(mask, Turned(mask, permission, grant), permission, grant, p)
  {
    GrantAddsOne(mask, permission, p);
    RemovalTakesOne(mask, permission, p);
  }

  lemma UserTurns(a: Accounts, actor: UserId, target: UserId, permission: Mask, grant: bool)
    requires actor in a.users && AfterModifyUser(a, actor, target, permission, grant).error.None?
    ensures var a' := AfterModifyUser(a, actor, target, permission, grant).tables;
            && OnlyUserChanges(a, a', target)
            && a'.users[target].userLevel == a.users[target].userLevel
            && a'.users[target].permissions == Turned(a.users[target].permissions, permission, grant)
            && a'.keys == if grant || !a.users[target].Has(permission) then a.keys else KeysAfterUserLoses(a.keys, target, permission)
  {
  }

  /** A user gains or loses exactly the permission, and keys lose the matching one with their user. */
  lemma WhatChangesOfUsersMean(a: Accounts, actor: UserId, target: UserId, permission: Mask, grant: bool, p: Mask)
    requires actor in a.users && IsUserPermission(permission) && IsUserPermission(p)
    requires AfterModifyUser(a, actor, target, permission, grant).error.None?
    ensures var a' := AfterModifyUser(a, actor, target, permission, grant).tables;
            && OnlyUserChanges(a, a', target)
            && a'.users[target].userLevel == a.users[target].userLevel
            && OnlyTurns(a.users[target].permissions, a'.users[target].permissions, permission, grant, p)
            && if grant || !a.users[target].Has(permission) then a'.keys == a.keys
               else KeysLose(a.keys, a'.keys, target, LostWith(permission))
  {
    UserTurns(a, actor, target, permission, grant);
    KeysLoseWith(a.keys, target, permission);
    TurningTurnsOne(a.users[target].permissions, permission, grant, p);
  }

  /** A new user needs a name of two bytes that nobody has, and starts without permissions, save that for file requests. */
  lemma NewUserIsExact(a: Accounts, id: UserId, name: string, mayRequestByDefault: bool, p: Mask)
    requires id !in a.users && IsUserPermission(p)
    ensures var o := AfterCreateUser(a, id, name, mayRequestByDefault);
            && (o.error == Some(InvalidUserInput) <==> Utf8Length(name) < 2)
            && (o.error == Some(AlreadyExists) <==> Utf8Length(name) >= 2 && exists u :: u in a.users && a.users[u].name == name)
            && (o.error.None? <==> Utf8Length(name) >= 2 && forall u :: u in a.users ==> a.users[u].name != name)
            && (o.error.Some? ==> o.tables == a)
            && (o.error.None? ==>
                  && o.tables == a.(users := o.tables.users) && o.tables.users.Keys == a.users.Keys + {id}
                  && (forall u :: u in a.users ==> o.tables.users[u] == a.users[u])
                  && o.tables.users[id].id == id && o.tables.users[id].name == name && !IsAdministrator(o.tables.users[id])
                  && (o.tables.users[id].Has(p) <==> mayRequestByDefault && p == USER_PERM_GUEST_UPLOADS))
  {
    GrantAddsOne(PERMISSION_NONE, USER_PERM_GUEST_UPLOADS, p);
  }

  /** Users that may be edited may be deleted; their keys go with them, and those of their requests if the files go. */
  lemma DeletionIsExact(a: Accounts, actor: UserId, target: UserId, deleteFiles: bool)
    requires Inv(a)
    ensures var o := AfterDeleteUser(a, actor, target, deleteFiles);
            && (o.error == Some(NotFound) <==> target !in a.users)
            && (o.error.None? <==> MayBeEdited(a, actor, target))
            && (o.error.Some? ==> o.tables == a)
            && (o.error.None? ==>
                  && o.tables.users == a.users - {target}
                  && (forall k :: k in o.tables.keys ==> k in a.keys && o.tables.keys[k] == a.keys[k])
                  && (forall k :: k in a.keys ==>
                        (k !in o.tables.keys <==> a.keys[k].userId == target || (deleteFiles && IsRequestKeyOf(a.requests, target, k)))))
  {
  }

  // ---------------------------------------------------------------- administrators

  function Administrators(a: Accounts): set<UserId> {
    set u | u in a.users && IsAdministrator(a.users[u])
  }

  /** Somebody becomes an administrator only by a promotion, and only an administrator promotes. */
  lemma AdministratorsComeFromAdministrators(a: Accounts, step: Step, u: UserId)
    requires u in Administrators(Apply(a, step)) && u !in Administrators(a)
    ensures step.ChangeRank? && step.target == u && step.rank == 1 && step.actor in Administrators(a) && step.actor != u
  {
  }

  /** No administrator acts in the run. */
  predicate NoAdministratorActs(a: Accounts, steps: seq<Step>)
    decreases |steps|
  {
    steps == [] || ((steps[0].CreateUser? || steps[0].actor !in Administrators(a)) && NoAdministratorActs(Apply(a, steps[0]), steps[1..]))
  }

  /** Main theorem: as long as no administrator acts, nobody becomes one. */
  lemma {:induction false} NobodyPromotesThemselves(a: Accounts, steps: seq<Step>)
    requires NoAdministratorActs(a, steps)
    ensures Administrators(Run(a, steps)) <= Administrators(a)
    decreases |steps|
  {
    if steps == [] {
    } else {
      var a' := Apply(a, steps[0]);
      NobodyPromotesThemselves(a', steps[1..]);
      forall u | u in Administrators(a')
        ensures u in Administrators(a)
      {
        if u !in Administrators(a) {
          AdministratorsComeFromAdministrators(a, steps[0], u);
        }
      }
    }
  }

  // ---------------------------------------------------------------- user names

  ghost predicate NamesDiffer(a: Accounts) {
    forall u, v :: u in a.users && v in a.users && a.users[u].name == a.users[v].name ==> u == v
  }

  lemma ANewUserKeepsNames(a: Accounts, id: UserId, name: string, mayRequestByDefault: bool)
    requires NamesDiffer(a) && id !in a.users
    ensures NamesDiffer(AfterCreateUser(a, id, name, mayRequestByDefault).tables)
  {
    if NameTaken(a.users, name) {
    } else {
      assert forall u :: u in a.users ==> a.users[u].name != name;
    }
  }

  /** No other step gives a user another name. */
  lemma NamesStay(a: Accounts, step: Step, u: UserId)
    requires !step.CreateUser? && u in Apply(a, step).users
    ensures u in a.users && Apply(a, step).users[u].name == a.users[u].name
  {
  }

  lemma StepKeepsNames(a: Accounts, step: Step)
    requires NamesDiffer(a)
    ensures NamesDiffer(Apply(a, step))
  {
    if step.CreateUser? {
      if Enabled(a, step) {
        ANewUserKeepsNames(a, step.userId, step.name, step.mayRequestByDefault);
      }
    } else {
      var a' := Apply(a, step);
      forall u, v | u in a'.users && v in a'.users && a'.users[u].name == a'.users[v].name
        ensures u == v
      {
        NamesStay(a, step, u);
        NamesStay(a, step, v);
      }
    }
  }

  /** In every run different users have different names. */
  lemma {:induction false} UserNamesAreUnique(a: Accounts, steps: seq<Step>)
    requires NamesDiffer(a)
    ensures NamesDiffer(Run(a, steps))
    decreases |steps|
  {
    if steps == [] {
    } else {
      StepKeepsNames(a, steps[0]);
      UserNamesAreUnique(Apply(a, steps[0]), steps[1..]);
    }
  }

  // ---------------------------------------------------------------- keys

  /** The key can be used, and it belongs to the acting user or the acting user manages keys. */
  predicate MayEditKey(a: Accounts, actor: UserId, id: KeyId, now: int)
    requires actor in a.users
  {
    IsLive(a, id, now) && (a.keys[id].userId == actor || HasPermission(a.users[actor].permissions, USER_PERM_MANAGE_API_KEYS))
  }

  /** Stored, with an owner, and not past its end, if it has one. */
  predicate IsLive(a: Accounts, id: KeyId, now: int) {
    id in a.keys && a.keys[id].userId in a.users && (a.keys[id].expiry == 0 || now < a.keys[id].expiry)
  }

  /** What the owner of a key needs for it to be given a permission, or to have it taken away. */
  predicate OwnerSuffices(user: User, permission: Mask) {
    && (permission == API_PERM_REPLACE ==> user.Has(USER_PERM_REPLACE_UPLOADS))
    && (permission == API_PERM_MANAGE_USERS ==> user.Has(USER_PERM_MANAGE_USERS))
    && (permission == API_PERM_MANAGE_LOGS ==> user.Has(USER_PERM_MANAGE_LOGS))
    && (permission == API_PERM_MANAGE_FILE_REQUESTS ==> user.Has(USER_PERM_GUEST_UPLOADS))
  }

  predicate OnlyKeysChange(a: Accounts, a': Accounts) {
    a' == a.(keys := a'.keys)
  }

  /** A permission of a key is granted or revoked exactly by those who may edit the key and for an owner who may use it. */
  lemma WhoMayChangeKeys(a: Accounts, actor: UserId, id: KeyId, permission: Mask, grant: bool, now: int)
    requires actor in a.users
    ensures var o := AfterModifyKey(a, actor, id, permission, grant, now);
            && (o.error == Some(NotFound) <==> !IsLive(a, id, now))
            && (o.error.None? <==> MayEditKey(a, actor, id, now) && OwnerSuffices(a.users[a.keys[id].userId], permission))
            && (o.error.Some? ==> o.tables == a && o.error.value in {NotFound, NoPermission})
  {
  }

  lemma KeyTurns(a: Accounts, actor: UserId, id: KeyId, permission: Mask, grant: bool, now: int)
    requires actor in a.users && AfterModifyKey(a, actor, id, permission, grant, now).error.None?
    ensures var a' := AfterModifyKey(a, actor, id, permission, grant, now).tables;
            && OnlyKeyChanges(a, a', id)
            && a'.keys[id] == a.keys[id].(permissions := Turned(a.keys[id].permissions, permission, grant))
  {
  }

  predicate OnlyKeyChanges(a: Accounts, a': Accounts, id: KeyId) {
    && OnlyKeysChange(a, a') && id in a.keys && a'.keys.Keys == a.keys.Keys
    && forall k :: k in a.keys && k != id ==> a'.keys[k] == a.keys[k]
  }

  /** The key gains or loses exactly the permission. */
  lemma WhatChangesOfKeysMean(a: Accounts, actor: UserId, id: KeyId, permission: Mask, grant: bool, now: int, p: Mask)
    requires actor in a.users && IsApiPermission(permission) && IsApiPermission(p)
    requires AfterModifyKey(a, actor, id, permission, grant, now).error.None?
    ensures var a' := AfterModifyKey(a, actor, id, permission, grant, now).tables;
            && OnlyKeyChanges(a, a', id)
            && a'.keys[id] == a.keys[id].(permissions := a'.keys[id].permissions)
            && OnlyTurns(a.keys[id].permissions, a'.keys[id].permissions, permission, grant, p)
  {
    KeyTurns(a, actor, id, permission, grant, now);
    TurningTurnsOne(a.keys[id].permissions, permission, grant, p);
  }

  lemma DeletionOfKeyIsExact(a: Accounts, actor: UserId, id: KeyId, now: int)
    requires actor in a.users
    ensures var o := AfterDeleteKey(a, actor, id, now);
            && (o.error == Some(NotFound) <==> !IsLive(a, id, now))
            && (o.error.None? <==> MayEditKey(a, actor, id, now))
            && o.tables == a.(keys := if MayEditKey(a, actor, id, now) then a.keys - {id} else a.keys)
            && (o.error.Some? ==> o.error.value in {NotFound, NoPermission})
  {
  }

  /** New keys belong to the acting user, do not end, and may view, upload, delete and edit, or nothing. */
  lemma NewKeyIsExact(a: Accounts, actor: UserId, id: KeyId, basicPermissions: bool, menuDisabled: bool, p: Mask, now: int)
    requires actor in a.users && id !in a.keys && IsApiPermission(p)
    ensures var o := AfterCreateKey(a, actor, id, basicPermissions, menuDisabled);
            if menuDisabled && !IsAdministrator(a.users[actor]) then o == Outcome(a, Some(NoPermission))
            else
              && o.error.None? && OnlyKeysChange(a, o.tables) && o.tables.keys.Keys == a.keys.Keys + {id}
              && (forall k :: k in a.keys ==> o.tables.keys[k] == a.keys[k])
              && IsLive(o.tables, id, now) && MayEditKey(o.tables, actor, id, now)
              && o.tables.keys[id].userId == actor && o.tables.keys[id].uploadRequestId == "" && !o.tables.keys[id].isSystemKey
              && (HasPermission(o.tables.keys[id].permissions, p) <==>
                  basicPermissions && p in {API_PERM_VIEW, API_PERM_UPLOAD, API_PERM_DELETE, API_PERM_EDIT})
  {
    DefaultPermissions(p);
  }

  lemma DefaultPermissions(p: Mask)
    requires IsApiPermission(p)
    ensures HasPermission(API_PERM_DEFAULT, p) <==> p in {API_PERM_VIEW, API_PERM_UPLOAD, API_PERM_DELETE, API_PERM_EDIT}
    ensures !HasPermission(PERMISSION_NONE, p)
  {
  }

  /** A token has exactly the requested permissions, all of them backed by the acting user, and ends after five minutes. */
  lemma TokenIsExact(a: Accounts, actor: UserId, id: KeyId, permission: Mask, now: int, t: int)
    requires actor in a.users && id !in a.keys && now > 0
    ensures var o := AfterGenerateToken(a, actor, id, permission, now);
            if !Covered(a.users[actor].permissions, permission) then o == Outcome(a, Some(NoPermission))
            else
              && o.error.None? && OnlyKeysChange(a, o.tables) && o.tables.keys.Keys == a.keys.Keys + {id}
              && (forall k :: k in a.keys ==> o.tables.keys[k] == a.keys[k])
              && (IsLive(o.tables, id, t) <==> t < now + 300)
              && o.tables.keys[id].permissions == permission && o.tables.keys[id].userId == actor
              && o.tables.keys[id].isSystemKey && o.tables.keys[id].uploadRequestId == ""
  {
    TokenChecksAreExact(a.users[actor].permissions, permission);
  }

  // ---------------------------------------------------------------- files and file requests

  /** A file that can be downloaded gets a new owner exactly if that user exists and the acting one may edit others' files. */
  lemma ChangeOfOwnerIsExact(a: Accounts, actor: UserId, id: FileId, newOwner: UserId, isAvailable: bool)
    requires actor in a.users
    ensures var o := AfterChangeFileOwner(a, actor, id, newOwner, isAvailable);
            var isPermitted := HasPermission(a.users[actor].permissions, USER_PERM_EDIT_OTHER_UPLOADS);
            && (o.error == Some(NoPermission) <==> id in a.files && isAvailable && !isPermitted)
            && (o.error.None? <==> id in a.files && isAvailable && isPermitted && newOwner in a.users)
            && (o.error.Some? ==> o.tables == a && o.error.value in {NotFound, NoPermission})
            && (o.error.None? ==>
                  && o.tables == a.(files := o.tables.files) && o.tables.files.Keys == a.files.Keys
                  && (forall f :: f in a.files ==>
                        o.tables.files[f] == a.files[f].(userId := if f == id then newOwner else a.files[f].userId)))
  {
  }

  /** A new file belongs to the acting user. */
  lemma NewFilesBelongToTheActor(a: Accounts, actor: UserId, file: File)
    requires file.id !in a.files
    ensures var o := AfterNewFile(a, actor, file);
            && o.error.None? && o.tables == a.(files := o.tables.files) && o.tables.files.Keys == a.files.Keys + {file.id}
            && o.tables.files[file.id].userId == actor
            && forall f :: f in a.files ==> o.tables.files[f] == a.files[f]
  {
  }

  /** The file expires at once; nothing else about it changes. */
  predicate IsMarked(file: File, file': File) {
    file' == file.(expireAt := 0, unlimitedTime := false)
  }

  /** A request is deleted by its owner, or by who may delete others' uploads, with its key; exactly its files are marked. */
  lemma DeletionOfRequestIsExact(a: Accounts, actor: UserId, r: RequestId)
    requires Inv(a) && actor in a.users
    ensures var o := AfterDeleteRequest(a, actor, r);
            var isPermitted := r in a.requests &&
                               (a.requests[r].userId == actor || HasPermission(a.users[actor].permissions, USER_PERM_DELETE_OTHER_UPLOADS));
            && (o.error == Some(NotFound) <==> r !in a.requests)
            && (o.error.None? <==> isPermitted)
            && (o.error.Some? ==> o.tables == a && o.error.value in {NotFound, NoPermission})
            && (o.error.None? ==>
                  && o.tables.users == a.users && o.tables.requests == a.requests - {r}
                  && o.tables.keys == a.keys - {a.requests[r].apiKey}
                  && o.tables.files.Keys == a.files.Keys
                  && (forall f :: f in a.files ==>
                        if a.files[f].uploadRequestId == r then IsMarked(a.files[f], o.tables.files[f]) else o.tables.files[f] == a.files[f]))
  {
  }

  /** A new request belongs to the acting user and has a key of its own, without permissions, that can be used at once. */
  lemma NewRequestIsExact(a: Accounts, actor: UserId, r: RequestId, keyId: KeyId, limits: Limits, p: Mask, now: int)
    requires actor in a.users && r !in a.requests && keyId !in a.keys && r != "" && IsApiPermission(p)
    ensures var o := AfterCreateRequest(a, actor, r, keyId, limits);
            && o.error.None? && o.tables.users == a.users && o.tables.files == a.files
            && o.tables.requests.Keys == a.requests.Keys + {r} && o.tables.keys.Keys == a.keys.Keys + {keyId}
            && (forall s :: s in a.requests ==> o.tables.requests[s] == a.requests[s])
            && (forall k :: k in a.keys ==> o.tables.keys[k] == a.keys[k])
            && IsUsable(o.tables, r, now) && o.tables.requests[r].userId == actor && o.tables.requests[r].limits == limits
            && o.tables.requests[r].id == r
            && o.tables.keys[keyId].userId == actor && o.tables.keys[keyId].uploadRequestId == r
            && !HasPermission(o.tables.keys[keyId].permissions, p)
  {
    DefaultPermissions(p);
  }

  // ---------------------------------------------------------------- what the steps of a run do

  /** Keys that may be made are there afterwards. */
  lemma NewKeyStepsTakeEffect(a: Accounts, actor: UserId, id: KeyId, permission: Mask, flag: bool, now: int)
    requires actor in a.users && id !in a.keys
    ensures id in Apply(a, CreateKey(actor, id, flag, false)).keys
    ensures Covered(a.users[actor].permissions, permission) ==> id in Apply(a, GenerateToken(actor, id, permission, now)).keys
  {
    TokenChecksAreExact(a.users[actor].permissions, permission);
  }

  /** Steps on keys that are allowed take effect. */
  lemma KeyStepsTakeEffect(a: Accounts, actor: UserId, id: KeyId, permission: Mask, grant: bool, now: int)
    requires actor in a.users && IsApiPermission(permission) && MayEditKey(a, actor, id, now)
    ensures id !in Apply(a, DeleteKey(actor, id, now)).keys
    ensures OwnerSuffices(a.users[a.keys[id].userId], permission) ==>
              var a' := Apply(a, ModifyKey(actor, id, permission, grant, now));
              id in a'.keys && HasPermission(a'.keys[id].permissions, permission) == grant
  {
    WhoMayChangeKeys(a, actor, id, permission, grant, now);
    if AfterModifyKey(a, actor, id, permission, grant, now).error.None? {
      WhatChangesOfKeysMean(a, actor, id, permission, grant, now, permission);
    }
  }

  /** So do those on users. */
  lemma UserStepsTakeEffect(a: Accounts, actor: UserId, target: UserId, permission: Mask, grant: bool, rank: nat, deleteFiles: bool)
    requires actor in a.users && MayBeEdited(a, actor, target) && IsUserPermission(permission)
    ensures (grant ==> a.users[actor].Has(permission)) ==>
              var a' := Apply(a, ModifyUser(actor, target, permission, grant));
              target in a'.users && a'.users[target].Has(permission) == grant
    ensures rank == 2 || (rank == 1 && IsAdministrator(a.users[actor])) ==>
              var a' := Apply(a, ChangeRank(actor, target, rank)); target in a'.users && a'.users[target].userLevel == rank
    ensures target !in Apply(a, DeleteUser(actor, target, deleteFiles)).users
  {
    WhoMayChangeUsers(a, actor, target, permission, grant);
    if AfterModifyUser(a, actor, target, permission, grant).error.None? {
      WhatChangesOfUsersMean(a, actor, target, permission, grant, permission);
    }
  }

  /** And those on files and file requests, and the first steps of a user. */
  lemma OtherStepsTakeEffect(a: Accounts, actor: UserId, file: File, newOwner: UserId, r: RequestId, keyId: KeyId, limits: Limits, id: UserId, name: string)
    requires actor in a.users
    ensures file.id !in a.files ==> file.id in Apply(a, NewFile(actor, file)).files
    ensures file.id in a.files && newOwner in a.users && a.users[actor].Has(USER_PERM_EDIT_OTHER_UPLOADS) ==>
              var a' := Apply(a, ChangeFileOwner(actor, file.id, newOwner, true)); file.id in a'.files && a'.files[file.id].userId == newOwner
    ensures r != "" && r !in a.requests && keyId !in a.keys ==> r in Apply(a, CreateRequest(actor, r, keyId, limits)).requests
    ensures r in a.requests && a.requests[r].id == r && a.requests[r].userId == actor ==> r !in Apply(a, DeleteRequest(actor, r)).requests
    ensures id !in a.users && Utf8Length(name) >= 2 && (forall u :: u in a.users ==> a.users[u].name != name) ==>
              id in Apply(a, CreateUser(id, name, false)).users
  {
  }
}
