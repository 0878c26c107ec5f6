/** The account handlers of the API, working on the tables in place. Loops over tables run in any order. */
module AccountsApi {
  import opened Wrappers
  import opened Permissions
  import opened Models
  import opened Database
  import opened Filenames
  import opened Accounts

  // The tables in the middle of a loop: the rows in `todo` have not been visited yet.

  ghost function RequestsMidway(a: Accounts, todo: set<RequestId>, actor: UserId, target: UserId, deleteFiles: bool): Accounts {
    if deleteFiles then
      a.(requests := map r | r in a.requests && (r in todo || a.requests[r].userId != target) :: a.requests[r],
         keys := map k | k in a.keys && !IsRequestKeyOf(a.requests - todo, target, k) :: a.keys[k],
         files := FilesOfRequestsExpired(a.files, a.requests - todo, target))
    else
      a.(requests := map r | r in a.requests ::
           if r in todo then a.requests[r] else RequestsMoved(a.requests, target, actor)[r])
  }

  ghost function FilesMidway(all: Rows, todo: set<FileId>, actor: UserId, target: UserId, deleteFiles: bool): Rows {
    if deleteFiles then map id | id in all && (id in todo || all[id].userId != target) :: all[id]
    else map id | id in all :: if id in todo then all[id] else FilesMoved(all, target, actor)[id]
  }

  ghost function ExpiredMidway(all: Rows, todo: set<FileId>, requestId: RequestId): Rows {
    map id | id in all :: if id in todo then all[id] else FilesOfRequestExpired(all, requestId)[id]
  }

  lemma ARequestIsDeleted(a: Accounts, todo: set<RequestId>, r: RequestId, actor: UserId, target: UserId)
    requires r in todo && r in a.requests && a.requests[r].id == r && a.requests[r].userId == target
    ensures RequestsMidway(a, todo - {r}, actor, target, true) == WithoutRequest(RequestsMidway(a, todo, actor, target, true), a.requests[r])
  {
    var before, after := a.requests - todo, a.requests - (todo - {r});
    forall q
      ensures q in after <==> q in before || q == r
    {}
    forall k
      ensures IsRequestKeyOf(after, target, k) <==> IsRequestKeyOf(before, target, k) || k == a.requests[r].apiKey
    {
      if IsRequestKeyOf(before, target, k) {
        var q :| q in before && before[q].userId == target && before[q].apiKey == k;
        assert q in after && after[q] == before[q];
      }
      assert r in after && after[r] == a.requests[r];
    }
    var m, w := RequestsMidway(a, todo - {r}, actor, target, true), WithoutRequest(RequestsMidway(a, todo, actor, target, true), a.requests[r]);
    assert m.requests == w.requests;
    assert m.keys == w.keys;
    assert m.files == w.files;
  }

  lemma ARequestIsMoved(a: Accounts, todo: set<RequestId>, r: RequestId, actor: UserId, target: UserId)
    requires r in todo && r in a.requests && a.requests[r].userId == target
    ensures var m := RequestsMidway(a, todo, actor, target, false);
            RequestsMidway(a, todo - {r}, actor, target, false)
            == m.(requests := m.requests[r := a.requests[r].(userId := actor)])
  {
    var m := RequestsMidway(a, todo, actor, target, false);
    assert RequestsMidway(a, todo - {r}, actor, target, false).requests == m.requests[r := a.requests[r].(userId := actor)];
  }

  lemma ARequestIsKept(a: Accounts, todo: set<RequestId>, r: RequestId, actor: UserId, target: UserId, deleteFiles: bool)
    requires r in todo && r in a.requests && a.requests[r].userId != target
    ensures RequestsMidway(a, todo - {r}, actor, target, deleteFiles) == RequestsMidway(a, todo, actor, target, deleteFiles)
  {
    var m, n := RequestsMidway(a, todo, actor, target, deleteFiles), RequestsMidway(a, todo - {r}, actor, target, deleteFiles);
    assert m.requests == n.requests;
    if deleteFiles {
      var before, after := a.requests - todo, a.requests - (todo - {r});
      forall k
        ensures IsRequestKeyOf(after, target, k) <==> IsRequestKeyOf(before, target, k)
      {
        if IsRequestKeyOf(before, target, k) {
          var q :| q in before && before[q].userId == target && before[q].apiKey == k;
          assert q in after && after[q] == before[q];
        }
        if IsRequestKeyOf(after, target, k) {
          var q :| q in after && after[q].userId == target && after[q].apiKey == k;
          assert q in before && after[q] == before[q];
        }
      }
      assert m.keys == n.keys;
      assert m.files == n.files;
    }
  }

  function WithRequestHandled(a: Accounts, request: FileRequest, actor: UserId, target: UserId, deleteFiles: bool): Accounts {
    if request.userId != target then a
    else if deleteFiles then WithoutRequest(a, request)
    else a.(requests := a.requests[request.id := request.(userId := actor)])
  }

  lemma ARequestIsHandled(a: Accounts, todo: set<RequestId>, r: RequestId, actor: UserId, target: UserId, deleteFiles: bool)
    requires r in todo && r in a.requests && a.requests[r].id == r
    ensures RequestsMidway(a, todo - {r}, actor, target, deleteFiles)
            == WithRequestHandled(RequestsMidway(a, todo, actor, target, deleteFiles), a.requests[r], actor, target, deleteFiles)
  {
    if a.requests[r].userId != target {
      ARequestIsKept(a, todo, r, actor, target, deleteFiles);
    } else if deleteFiles {
      ARequestIsDeleted(a, todo, r, actor, target);
    } else {
      ARequestIsMoved(a, todo, r, actor, target);
    }
  }

  lemma RequestsAtStart(a: Accounts, actor: UserId, target: UserId, deleteFiles: bool)
    ensures RequestsMidway(a, a.requests.Keys, actor, target, deleteFiles) == a
  {
    var m := RequestsMidway(a, a.requests.Keys, actor, target, deleteFiles);
    assert m.requests == a.requests;
    if deleteFiles {
      assert m.keys == a.keys;
      assert m.files == a.files;
    }
  }

  /** The three loops of a user deletion, one after the other, make the specified change. */
  lemma DeletionInThreeLoops(a: Accounts, actor: UserId, target: UserId, deleteFiles: bool)
    requires UserEditError(a, actor, target).None?
    ensures var b := RequestsMidway(a.(keys := KeysOfOtherUsers(a.keys, target)), {}, actor, target, deleteFiles);
            AfterDeleteUser(a, actor, target, deleteFiles)
            == Done(b.(users := a.users - {target}, files := FilesMidway(b.files, {}, actor, target, deleteFiles)))
  {
    var b := RequestsMidway(a.(keys := KeysOfOtherUsers(a.keys, target)), {}, actor, target, deleteFiles);
    var after := AfterDeleteUser(a, actor, target, deleteFiles).tables;
    assert a.requests - {} == a.requests;
    assert b.keys == after.keys;
    assert b.requests == after.requests;
    assert FilesMidway(b.files, {}, actor, target, deleteFiles) == after.files;
  }

  ghost function KeysOfOtherUsers(keys: map<KeyId, ApiKey>, target: UserId): map<KeyId, ApiKey> {
    map k | k in keys && keys[k].userId != target :: keys[k]
  }

  lemma AFileIsVisited(all: Rows, todo: set<FileId>, id: FileId, actor: UserId, target: UserId, deleteFiles: bool)
    requires id in todo && id in all
    ensures var m := FilesMidway(all, todo, actor, target, deleteFiles);
            FilesMidway(all, todo - {id}, actor, target, deleteFiles)
            == if all[id].userId != target then m else if deleteFiles then m - {id} else m[id := all[id].(userId := actor)]
  {}

  lemma AFileIsExpired(all: Rows, todo: set<FileId>, id: FileId, requestId: RequestId)
    requires id in todo && id in all
    ensures var m := ExpiredMidway(all, todo, requestId);
            ExpiredMidway(all, todo - {id}, requestId)
            == if all[id].uploadRequestId == requestId then m[id := Expired(all[id])] else m
  {}

  class Api {
    var users: map<UserId, User>
    var keys: map<KeyId, ApiKey>
    var requests: map<RequestId, FileRequest>
    var files: Rows

    ghost function View(): Accounts
      reads this
    {
      Accounts(users, keys, requests, files)
    }

    /** Rows are filed under their ids. */
    ghost predicate Valid()
      reads this
    {
      && (forall k :: k in keys ==> keys[k].id == k)
      && (forall u :: u in users ==> users[u].id == u)
      && (forall r :: r in requests ==> requests[r].id == r)
      && (forall id :: id in files ==> files[id].id == id)
    }

    constructor (admin: User)
      ensures Valid() && View() == Accounts(map[admin.id := admin], map[], map[], map[])
    {
      users := map[admin.id := admin];
      keys, requests, files := map[], map[], map[];
    }

    method SaveApiKey(key: ApiKey)
      modifies this`keys
      ensures keys == old(keys)[key.id := key]
    {
      keys := keys[key.id := key];
    }

    method SaveUser(user: User)
      modifies this`users
      ensures users == old(users)[user.id := user]
    {
      users := users[user.id := user];
    }

    // -------------------------------------------------------------- API keys

    method GenerateNewKey(id: KeyId, defaultPermissions: bool, userId: UserId, requestId: RequestId) returns (key: ApiKey)
      modifies this`keys
      ensures key == NewKey(id, defaultPermissions, userId, requestId) && keys == old(keys)[id := key]
    {
      key := ApiKey(id, API_PERM_DEFAULT, 0, false, userId, requestId);
      if !defaultPermissions {
        key := key.(permissions := PERMISSION_NONE);
      }
      SaveApiKey(key);
    }

    method CreateApiKey(actor: UserId, id: KeyId, basicPermissions: bool, menuDisabled: bool) returns (error: Option<Error>)
      requires actor in users
      modifies this
      ensures Outcome(View(), error) == AfterCreateKey(old(View()), actor, id, basicPermissions, menuDisabled)
    {
      if menuDisabled && !users[actor].IsAdmin() {
        return Some(NoPermission);
      }
      var _ := GenerateNewKey(id, basicPermissions, actor, "");
      error := None;
    }

    /** The owner and the record of a valid key. */
    method IsValidKeyForEditing(id: KeyId, now: int) returns (found: Option<(User, ApiKey)>)
      ensures found == if IsValidKey(View(), id, now) then Some((users[keys[id].userId], keys[id])) else None
    {
      if id in keys && (keys[id].expiry == 0 || keys[id].expiry > now) && keys[id].userId in users {
        return Some((users[keys[id].userId], keys[id]));
      }
      found := None;
    }

    method DeleteKey(actor: UserId, id: KeyId, now: int) returns (error: Option<Error>)
      requires Valid() && actor in users
      modifies this
      ensures Outcome(View(), error) == AfterDeleteKey(old(View()), actor, id, now)
    {
      var found := IsValidKeyForEditing(id, now);
      if found.None? {
        return Some(NotFound);
      }
      var (owner, key) := found.value;
      if owner.id != actor && !users[actor].Has(USER_PERM_MANAGE_API_KEYS) {
        return Some(NoPermission);
      }
      keys := keys - {key.id};
      error := None;
    }

    method ModifyApiKey(actor: UserId, id: KeyId, permission: Mask, grant: bool, now: int) returns (error: Option<Error>)
      requires Valid() && actor in users
      modifies this
      ensures Outcome(View(), error) == AfterModifyKey(old(View()), actor, id, permission, grant, now)
    {
      var found := IsValidKeyForEditing(id, now);
      if found.None? {
        return Some(NotFound);
      }
      var (owner, key) := found.value;
      if owner.id != actor && !users[actor].Has(USER_PERM_MANAGE_API_KEYS) {
        return Some(NoPermission);
      }
      if permission == API_PERM_REPLACE {
        if !owner.Has(USER_PERM_REPLACE_UPLOADS) { return Some(NoPermission); }
      } else if permission == API_PERM_MANAGE_USERS {
        if !owner.Has(USER_PERM_MANAGE_USERS) { return Some(NoPermission); }
      } else if permission == API_PERM_MANAGE_LOGS {
        if !owner.Has(USER_PERM_MANAGE_LOGS) { return Some(NoPermission); }
      } else if permission == API_PERM_MANAGE_FILE_REQUESTS {
        if !owner.Has(USER_PERM_GUEST_UPLOADS) { return Some(NoPermission); }
      }
      error := None;
      if grant && !HasPermission(key.permissions, permission) {
        SaveApiKey(key.(permissions := Granted(key.permissions, permission)));
        return;
      }
      if !grant && HasPermission(key.permissions, permission) {
        SaveApiKey(key.(permissions := Removed(key.permissions, permission)));
      }
    }

    method GenerateToken(actor: UserId, id: KeyId, permission: Mask, now: int) returns (error: Option<Error>)
      requires actor in users
      modifies this
      ensures Outcome(View(), error) == AfterGenerateToken(old(View()), actor, id, permission, now)
    {
      var user := users[actor];
      if ContainsApiPermission(permission, API_PERM_REPLACE) && !user.Has(USER_PERM_REPLACE_UPLOADS) {
        return Some(NoPermission);
      }
      if ContainsApiPermission(permission, API_PERM_MANAGE_USERS) && !user.Has(USER_PERM_MANAGE_USERS) {
        return Some(NoPermission);
      }
      if ContainsApiPermission(permission, API_PERM_MANAGE_LOGS) && !user.Has(USER_PERM_MANAGE_LOGS) {
        return Some(NoPermission);
      }
      if ContainsApiPermission(permission, API_PERM_MANAGE_FILE_REQUESTS) && !user.Has(USER_PERM_GUEST_UPLOADS) {
        return Some(NoPermission);
      }
      SaveApiKey(ApiKey(id, permission, now + TOKEN_LIFETIME, true, actor, ""));
      error := None;
    }

    method UpdateApiKeyPermsOnUserPermChange(userId: UserId, userPerm: Mask)
      requires Valid()
      modifies this`keys
      ensures Valid() && keys == KeysAfterUserLoses(old(keys), userId, userPerm)
    {
      var affected := AffectedApiPermission(userPerm);
      if affected == PERMISSION_NONE {
        return;
      }
      var all := keys;
      var todo := all.Keys;
      while todo != {}
        invariant todo <= all.Keys && Valid()
        invariant keys.Keys == all.Keys
        invariant forall k :: k in all ==> keys[k] == if k in todo then all[k] else KeysWithout(all, userId, affected)[k]
        decreases |todo|
      {
        var k :| k in todo;
        if all[k].userId == userId && HasPermission(all[k].permissions, affected) {
          SaveApiKey(all[k].(permissions := Removed(all[k].permissions, affected)));
        }
        todo := todo - {k};
      }
      assert keys == KeysWithout(all, userId, affected);
    }

    // -------------------------------------------------------------- users

    method CreateUser(id: UserId, name: string, mayRequestByDefault: bool) returns (error: Option<Error>)
      requires id !in users
      modifies this
      ensures Outcome(View(), error) == AfterCreateUser(old(View()), id, name, mayRequestByDefault)
    {
      if Utf8Length(name) < MIN_LENGTH_USER {
        return Some(InvalidUserInput);
      }
      if NameTaken(users, name) {
        return Some(AlreadyExists);
      }
      var newUser := User(id, name, PERMISSION_NONE, USER_LEVEL_USER);
      if mayRequestByDefault {
        newUser := newUser.(permissions := Granted(newUser.permissions, USER_PERM_GUEST_UPLOADS));
      }
      SaveUser(newUser);
      error := None;
    }

    method ModifyUser(actor: UserId, target: UserId, permission: Mask, grant: bool) returns (error: Option<Error>)
      requires Valid() && actor in users
      modifies this
      ensures Outcome(View(), error) == AfterModifyUser(old(View()), actor, target, permission, grant)
    {
      if target !in users {
        return Some(NotFound);
      }
      var userEdit := users[target];
      if userEdit.IsSuperAdmin() {
        return Some(ResourceCanNotBeEdited);
      }
      if userEdit.id == actor {
        return Some(ResourceCanNotBeEdited);
      }
      if grant && !users[actor].Has(permission) {
        return Some(NoPermission);
      }
      error := None;
      if grant {
        if !userEdit.Has(permission) {
          SaveUser(userEdit.(permissions := Granted(userEdit.permissions, permission)));
        }
        return;
      }
      if userEdit.Has(permission) {
        SaveUser(userEdit.(permissions := Removed(userEdit.permissions, permission)));
        UpdateApiKeyPermsOnUserPermChange(userEdit.id, permission);
      }
    }

    method ChangeUserRank(actor: UserId, target: UserId, rank: nat) returns (error: Option<Error>)
      requires Valid() && actor in users
      modifies this
      ensures Outcome(View(), error) == AfterChangeRank(old(View()), actor, target, rank)
    {
      if target !in users {
        return Some(NotFound);
      }
      var userEdit := users[target];
      if userEdit.id == actor {
        return Some(ResourceCanNotBeEdited);
      }
      if userEdit.IsSuperAdmin() {
        return Some(ResourceCanNotBeEdited);
      }
      if rank == USER_LEVEL_ADMIN && !users[actor].IsAdmin() {
        return Some(ResourceCanNotBeEdited);
      }
      userEdit := userEdit.(userLevel := rank);
      if rank == USER_LEVEL_ADMIN {
        userEdit := userEdit.(permissions := USER_PERMISSION_ALL);
      } else if rank == USER_LEVEL_USER {
        userEdit := userEdit.(permissions := PERMISSION_NONE);
        UpdateApiKeyPermsOnUserPermChange(userEdit.id, USER_PERM_REPLACE_UPLOADS);
        UpdateApiKeyPermsOnUserPermChange(userEdit.id, USER_PERM_MANAGE_USERS);
        UpdateApiKeyPermsOnUserPermChange(userEdit.id, USER_PERM_MANAGE_LOGS);
        UpdateApiKeyPermsOnUserPermChange(userEdit.id, USER_PERM_GUEST_UPLOADS);
      } else {
        return Some(InvalidUserInput);
      }
      SaveUser(userEdit);
      error := None;
    }

    method DeleteUser(actor: UserId, target: UserId, deleteFiles: bool) returns (error: Option<Error>)
      requires Valid()
      modifies this
      ensures Outcome(View(), error) == AfterDeleteUser(old(View()), actor, target, deleteFiles)
    {
      if target !in users {
        return Some(NotFound);
      }
      if users[target].IsSuperAdmin() || target == actor {
        return Some(ResourceCanNotBeEdited);
      }
      DeletionInThreeLoops(View(), actor, target, deleteFiles);
      DeleteKeysOf(target);
      DeleteOrMoveRequests(actor, target, deleteFiles);
      DeleteOrMoveFiles(actor, target, deleteFiles);
      users := users - {target};
      error := None;
    }

    method DeleteKeysOf(target: UserId)
      requires Valid()
      modifies this`keys
      ensures Valid() && keys == KeysOfOtherUsers(old(keys), target)
    {
      var all := keys;
      var todo := all.Keys;
      while todo != {}
        invariant todo <= all.Keys && Valid()
        invariant keys == map k | k in all && (k in todo || all[k].userId != target) :: all[k]
        decreases |todo|
      {
        var k :| k in todo;
        if all[k].userId == target {
          keys := keys - {all[k].id};
        }
        todo := todo - {k};
      }
    }

    method DeleteOrMoveFiles(actor: UserId, target: UserId, deleteFiles: bool)
      requires Valid()
      modifies this`files
      ensures Valid()
      ensures files == FilesMidway(old(files), {}, actor, target, deleteFiles)
    {
      var all := files;
      var todo := all.Keys;
      assert files == FilesMidway(all, todo, actor, target, deleteFiles);
      while todo != {}
        invariant todo <= all.Keys
        invariant files == FilesMidway(all, todo, actor, target, deleteFiles)
        decreases |todo|
      {
        var id :| id in todo;
        if all[id].userId == target {
          DeleteOrMoveFile(all[id], actor, deleteFiles);
        }
        AFileIsVisited(all, todo, id, actor, target, deleteFiles);
        todo := todo - {id};
      }
    }

    method DeleteOrMoveFile(file: File, actor: UserId, delete: bool)
      modifies this`files
      ensures files == if delete then old(files) - {file.id} else old(files)[file.id := file.(userId := actor)]
    {
      if delete {
        files := files - {file.id};
      } else {
        files := files[file.id := file.(userId := actor)];
      }
    }

    // -------------------------------------------------------------- files and file requests

    method ChangeFileOwner(actor: UserId, fileId: FileId, newOwner: UserId, isAvailable: bool) returns (error: Option<Error>)
      requires Valid() && actor in users
      modifies this
      ensures Outcome(View(), error) == AfterChangeFileOwner(old(View()), actor, fileId, newOwner, isAvailable)
    {
      if fileId !in files || !isAvailable {
        return Some(NotFound);
      }
      var file := files[fileId];
      if !users[actor].Has(USER_PERM_EDIT_OTHER_UPLOADS) {
        return Some(NoPermission);
      }
      if newOwner !in users {
        return Some(NotFound);
      }
      files := files[file.id := file.(userId := newOwner)];
      error := None;
    }

    method CreateRequest(actor: UserId, requestId: RequestId, keyId: KeyId, limits: Limits)
      modifies this
      ensures Outcome(View(), None) == AfterCreateRequest(old(View()), actor, requestId, keyId, limits)
    {
      var key := GenerateNewKey(keyId, false, actor, requestId);
      requests := requests[requestId := FileRequest(requestId, actor, key.id, limits)];
    }

    method DeleteRequest(actor: UserId, requestId: RequestId) returns (error: Option<Error>)
      requires Valid() && actor in users
      modifies this
      ensures Outcome(View(), error) == AfterDeleteRequest(old(View()), actor, requestId)
    {
      if requestId !in requests {
        return Some(NotFound);
      }
      var request := requests[requestId];
      if request.userId != actor && !users[actor].Has(USER_PERM_DELETE_OTHER_UPLOADS) {
        return Some(NoPermission);
      }
      RemoveRequest(request);
      error := None;
    }

    method DeleteFilesOfRequest(requestId: RequestId)
      requires Valid()
      modifies this`files
      ensures Valid() && files == FilesOfRequestExpired(old(files), requestId)
    {
      var all := files;
      var todo := all.Keys;
      assert files == ExpiredMidway(all, todo, requestId);
      while todo != {}
        invariant todo <= all.Keys
        invariant files == ExpiredMidway(all, todo, requestId)
        decreases |todo|
      {
        var id :| id in todo;
        if all[id].uploadRequestId == requestId {
          files := files[all[id].id := Expired(all[id])];
        }
        AFileIsExpired(all, todo, id, requestId);
        todo := todo - {id};
      }
      assert files == FilesOfRequestExpired(all, requestId);
    }

    /** Marks the files of the request as deleted and removes the request with its key. */
    method RemoveRequest(request: FileRequest)
      requires Valid()
      modifies this
      ensures Valid() && View() == WithoutRequest(old(View()), request)
    {
      DeleteFilesOfRequest(request.id);
      requests := requests - {request.id};
      keys := keys - {request.apiKey};
    }

    /** Deletes the requests of the user with their files and keys, or hands them to the acting user. */
    method DeleteOrMoveRequests(actor: UserId, target: UserId, deleteFiles: bool)
      requires Valid()
      modifies this
      ensures Valid() && View() == RequestsMidway(old(View()), {}, actor, target, deleteFiles)
    {
      ghost var before := View();
      var all := requests;
      var todo := all.Keys;
      RequestsAtStart(before, actor, target, deleteFiles);
      while todo != {}
        invariant todo <= all.Keys && Valid()
        invariant View() == RequestsMidway(before, todo, actor, target, deleteFiles)
        decreases |todo|
      {
        var r :| r in todo;
        ARequestIsHandled(before, todo, r, actor, target, deleteFiles);
        DeleteOrMoveRequest(all[r], actor, target, deleteFiles);
        todo := todo - {r};
      }
    }

    method DeleteOrMoveRequest(request: FileRequest, actor: UserId, target: UserId, deleteFiles: bool)
      requires Valid()
      modifies this
      ensures Valid() && View() == WithRequestHandled(old(View()), request, actor, target, deleteFiles)
    {
      if request.userId == target {
        if deleteFiles {
          RemoveRequest(request);
        } else {
          requests := requests[request.id := request.(userId := actor)];
        }
      }
    }
  }
}
