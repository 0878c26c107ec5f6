/**
 Users, API keys, file requests and the ownership of files: what the API handlers do to these four tables.
 Each function is the effect of one handler that runs without interruption; `actor` is the id of the user
 who calls it and whose record is in the table.
 */
module Accounts {
  import opened Wrappers
  import opened Permissions
  import opened Models
  import opened Database
  import opened Filenames

  const USER_LEVEL_SUPER_ADMIN: nat := 0
  const USER_LEVEL_ADMIN: nat := 1
  const USER_LEVEL_USER: nat := 2

  /** In bytes. */
  const MIN_LENGTH_USER: nat := 2
  const TOKEN_LIFETIME := 5 * 60

  datatype User = User(id: UserId, name: string, permissions: Mask, userLevel: nat)
  {
    predicate Has(permission: Mask) {
      HasPermission(permissions, permission)
    }

    predicate IsSuperAdmin() {
      userLevel == USER_LEVEL_SUPER_ADMIN
    }

    predicate IsAdmin() {
      userLevel == USER_LEVEL_ADMIN || userLevel == USER_LEVEL_SUPER_ADMIN
    }
  }

  datatype ApiKey = ApiKey(
    id: KeyId,
    permissions: Mask,
    expiry: int,
    isSystemKey: bool,
    userId: UserId,
    uploadRequestId: RequestId)

  datatype Accounts = Accounts(
    users: map<UserId, User>,
    keys: map<KeyId, ApiKey>,
    requests: map<RequestId, FileRequest>,
    files: Rows)

  datatype Error = NotFound | NoPermission | ResourceCanNotBeEdited | AlreadyExists | InvalidUserInput

  /** The new tables, and the error sent to the caller if there is one. */
  datatype Outcome = Outcome(tables: Accounts, error: Option<Error>)

  function Done(a: Accounts): Outcome {
    Outcome(a, None)
  }

  function Failed(a: Accounts, error: Error): Outcome {
    Outcome(a, Some(error))
  }

  // ---------------------------------------------------------------- API keys

  function NewKey(id: KeyId, defaultPermissions: bool, userId: UserId, requestId: RequestId): ApiKey {
    ApiKey(id, if defaultPermissions then API_PERM_DEFAULT else PERMISSION_NONE, 0, false, userId, requestId)
  }

  function AfterCreateKey(a: Accounts, actor: UserId, id: KeyId, basicPermissions: bool, menuDisabled: bool): Outcome
    requires actor in a.users
  {
    if menuDisabled && !a.users[actor].IsAdmin() then Failed(a, NoPermission)
    else Done(a.(keys := a.keys[id := NewKey(id, basicPermissions, actor, "")]))
  }

  /** The key is stored, not expired, and its owner exists. */
  predicate IsValidKey(a: Accounts, id: KeyId, now: int) {
    && id in a.keys
    && (a.keys[id].expiry == 0 || a.keys[id].expiry > now)
    && a.keys[id].userId in a.users
  }

  /** The checks shared by the handlers that change or delete a key. */
  function KeyEditError(a: Accounts, actor: UserId, id: KeyId, now: int): Option<Error>
    requires actor in a.users
  {
    if !IsValidKey(a, id, now) then Some(NotFound)
    else if a.keys[id].userId != actor && !a.users[actor].Has(USER_PERM_MANAGE_API_KEYS) then Some(NoPermission)
    else None
  }

  function AfterDeleteKey(a: Accounts, actor: UserId, id: KeyId, now: int): Outcome
    requires actor in a.users
  {
    if KeyEditError(a, actor, id, now).Some? then Outcome(a, KeyEditError(a, actor, id, now))
    else Done(a.(keys := a.keys - {id}))
  }

  function AfterModifyKey(a: Accounts, actor: UserId, id: KeyId, permission: Mask, grant: bool, now: int): Outcome
    requires actor in a.users
  {
    var error := KeyEditError(a, actor, id, now);
    if error.Some? then Outcome(a, error)
    else
      var key := a.keys[id];
      if !a.users[key.userId].Has(RequiredOfOwner(permission)) then Failed(a, NoPermission)
      else if grant && !HasPermission(key.permissions, permission) then
        Done(a.(keys := a.keys[id := key.(permissions := Granted(key.permissions, permission))]))
      else if !grant && HasPermission(key.permissions, permission) then
        Done(a.(keys := a.keys[id := key.(permissions := Removed(key.permissions, permission))]))
      else Done(a)
  }

  function AfterGenerateToken(a: Accounts, actor: UserId, id: KeyId, permission: Mask, now: int): Outcome
    requires actor in a.users
  {
    if !TokenAllowed(a.users[actor].permissions, permission) then Failed(a, NoPermission)
    else Done(a.(keys := a.keys[id := ApiKey(id, permission, now + TOKEN_LIFETIME, true, actor, "")]))
  }

  /** Every key of the user, without one API permission. */
  function KeysWithout(keys: map<KeyId, ApiKey>, userId: UserId, permission: Mask): map<KeyId, ApiKey> {
    map k | k in keys ::
      if keys[k].userId == userId then keys[k].(permissions := Stripped(keys[k].permissions, permission)) else keys[k]
  }

  /** Keys of a user who lost a user permission. */
  function KeysAfterUserLoses(keys: map<KeyId, ApiKey>, userId: UserId, userPermission: Mask): map<KeyId, ApiKey> {
    if AffectedApiPermission(userPermission) == PERMISSION_NONE then keys
    else KeysWithout(keys, userId, AffectedApiPermission(userPermission))
  }

  // ---------------------------------------------------------------- users

  predicate NameTaken(users: map<UserId, User>, name: string) {
    exists u :: u in users && users[u].name == name
  }

  /** `id` is assigned by the database; `name` is in lower case. */
  function AfterCreateUser(a: Accounts, id: UserId, name: string, mayRequestByDefault: bool): Outcome {
    if Utf8Length(name) < MIN_LENGTH_USER then Failed(a, InvalidUserInput)
    else if NameTaken(a.users, name) then Failed(a, AlreadyExists)
    else
      var permissions := if mayRequestByDefault then Granted(PERMISSION_NONE, USER_PERM_GUEST_UPLOADS) else PERMISSION_NONE;
      Done(a.(users := a.users[id := User(id, name, permissions, USER_LEVEL_USER)]))
  }

  /** Nobody edits the super admin or themselves. */
  function UserEditError(a: Accounts, actor: UserId, target: UserId): Option<Error> {
    if target !in a.users then Some(NotFound)
    else if a.users[target].IsSuperAdmin() || target == actor then Some(ResourceCanNotBeEdited)
    else None
  }

  function AfterModifyUser(a: Accounts, actor: UserId, target: UserId, permission: Mask, grant: bool): Outcome
    requires actor in a.users
  {
    var error := UserEditError(a, actor, target);
    if error.Some? then Outcome(a, error)
    else if grant && !a.users[actor].Has(permission) then Failed(a, NoPermission)
    else
      var user := a.users[target];
      if grant then
        if user.Has(permission) then Done(a)
        else Done(a.(users := a.users[target := user.(permissions := Granted(user.permissions, permission))]))
      else if user.Has(permission) then
        Done(a.(users := a.users[target := user.(permissions := Removed(user.permissions, permission))],
                keys := KeysAfterUserLoses(a.keys, target, permission)))
      else Done(a)
  }

  function AfterChangeRank(a: Accounts, actor: UserId, target: UserId, rank: nat): Outcome
    requires actor in a.users
  {
    var error := UserEditError(a, actor, target);
    if error.Some? then Outcome(a, error)
    else if rank == USER_LEVEL_ADMIN && !a.users[actor].IsAdmin() then Failed(a, ResourceCanNotBeEdited)
    else
      var user := a.users[target].(userLevel := rank);
      if rank == USER_LEVEL_ADMIN then Done(a.(users := a.users[target := user.(permissions := USER_PERMISSION_ALL)]))
      else if rank == USER_LEVEL_USER then
        Done(a.(users := a.users[target := user.(permissions := PERMISSION_NONE)], keys := DemotedKeys(a.keys, target)))
      else Failed(a, InvalidUserInput)
  }

  function DemotedKeys(keys: map<KeyId, ApiKey>, userId: UserId): map<KeyId, ApiKey> {
    var k1 := KeysAfterUserLoses(keys, userId, USER_PERM_REPLACE_UPLOADS);
    var k2 := KeysAfterUserLoses(k1, userId, USER_PERM_MANAGE_USERS);
    var k3 := KeysAfterUserLoses(k2, userId, USER_PERM_MANAGE_LOGS);
    KeysAfterUserLoses(k3, userId, USER_PERM_GUEST_UPLOADS)
  }

  function AfterDeleteUser(a: Accounts, actor: UserId, target: UserId, deleteFiles: bool): Outcome {
    var error := UserEditError(a, actor, target);
    if error.Some? then Outcome(a, error)
    else Done(Accounts(a.users - {target},
                       KeysOfOthers(a, target, deleteFiles),
                       if deleteFiles then RequestsOfOthers(a.requests, target) else RequestsMoved(a.requests, target, actor),
                       if deleteFiles then FilesOfOthers(a, target) else FilesMoved(a.files, target, actor)))
  }

  /** Without the user's keys and, if the requests go too, without the keys of those requests. */
  function KeysOfOthers(a: Accounts, target: UserId, deleteFiles: bool): map<KeyId, ApiKey> {
    map k | k in a.keys && a.keys[k].userId != target && !(deleteFiles && IsRequestKeyOf(a.requests, target, k)) :: a.keys[k]
  }

  predicate IsRequestKeyOf(requests: map<RequestId, FileRequest>, owner: UserId, key: KeyId) {
    exists r :: r in requests && requests[r].userId == owner && requests[r].apiKey == key
  }

  function RequestsOfOthers(requests: map<RequestId, FileRequest>, target: UserId): map<RequestId, FileRequest> {
    map r | r in requests && requests[r].userId != target :: requests[r]
  }

  function RequestsMoved(requests: map<RequestId, FileRequest>, target: UserId, actor: UserId): map<RequestId, FileRequest> {
    map r | r in requests :: if requests[r].userId == target then requests[r].(userId := actor) else requests[r]
  }

  /** Files uploaded to a deleted request are marked as deleted, whoever owns them; the user's own are dropped. */
  function FilesOfOthers(a: Accounts, target: UserId): Rows {
    var marked := FilesOfRequestsExpired(a.files, a.requests, target);
    map id | id in marked && marked[id].userId != target :: marked[id]
  }

  function FilesOfRequestsExpired(files: Rows, requests: map<RequestId, FileRequest>, owner: UserId): Rows {
    map id | id in files ::
      if files[id].uploadRequestId in requests && requests[files[id].uploadRequestId].userId == owner
      then Expired(files[id]) else files[id]
  }

  function Expired(file: File): File {
    file.(expireAt := 0, unlimitedTime := false)
  }

  function FilesMoved(files: Rows, target: UserId, actor: UserId): Rows {
    map id | id in files :: if files[id].userId == target then files[id].(userId := actor) else files[id]
  }

  // ---------------------------------------------------------------- files and file requests

  function AfterChangeFileOwner(a: Accounts, actor: UserId, fileId: FileId, newOwner: UserId, isAvailable: bool): Outcome
    requires actor in a.users
  {
    if fileId !in a.files || !isAvailable then Failed(a, NotFound)
    else if !a.users[actor].Has(USER_PERM_EDIT_OTHER_UPLOADS) then Failed(a, NoPermission)
    else if newOwner !in a.users then Failed(a, NotFound)
    else Done(a.(files := a.files[fileId := a.files[fileId].(userId := newOwner)]))
  }

  /** An upload or a duplicate: a new file of the acting user. */
  function AfterNewFile(a: Accounts, actor: UserId, file: File): Outcome {
    Done(a.(files := a.files[file.id := file.(userId := actor)]))
  }

  function AfterCreateRequest(a: Accounts, actor: UserId, requestId: RequestId, keyId: KeyId, limits: Limits): Outcome {
    Done(a.(requests := a.requests[requestId := FileRequest(requestId, actor, keyId, limits)],
            keys := a.keys[keyId := NewKey(keyId, false, actor, requestId)]))
  }

  function AfterDeleteRequest(a: Accounts, actor: UserId, requestId: RequestId): Outcome
    requires actor in a.users
  {
    if requestId !in a.requests then Failed(a, NotFound)
    else
      var request := a.requests[requestId];
      if request.userId != actor && !a.users[actor].Has(USER_PERM_DELETE_OTHER_UPLOADS) then Failed(a, NoPermission)
      else Done(WithoutRequest(a, request))
  }

  function WithoutRequest(a: Accounts, request: FileRequest): Accounts {
    a.(requests := a.requests - {request.id}, keys := a.keys - {request.apiKey}, files := FilesOfRequestExpired(a.files, request.id))
  }

  function FilesOfRequestExpired(files: Rows, requestId: RequestId): Rows {
    map id | id in files :: if files[id].uploadRequestId == requestId then Expired(files[id]) else files[id]
  }
}
