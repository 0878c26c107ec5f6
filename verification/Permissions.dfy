/** The permission masks of users and API keys, as 16-bit words. */
module Permissions {
  import opened Wrappers

  type Mask = bv16

  const PERMISSION_NONE: Mask := 0

  const USER_PERM_REPLACE_UPLOADS: Mask := 1
  const USER_PERM_LIST_OTHER_UPLOADS: Mask := 2
  const USER_PERM_EDIT_OTHER_UPLOADS: Mask := 4
  const USER_PERM_REPLACE_OTHER_UPLOADS: Mask := 8
  const USER_PERM_DELETE_OTHER_UPLOADS: Mask := 16
  const USER_PERM_MANAGE_LOGS: Mask := 32
  const USER_PERM_MANAGE_API_KEYS: Mask := 64
  const USER_PERM_MANAGE_USERS: Mask := 128
  const USER_PERM_GUEST_UPLOADS: Mask := 256
  const USER_PERMISSION_ALL: Mask := 511

  const API_PERM_VIEW: Mask := 1
  const API_PERM_UPLOAD: Mask := 2
  const API_PERM_DELETE: Mask := 4
  const API_PERM_API_MOD: Mask := 8
  const API_PERM_EDIT: Mask := 16
  const API_PERM_REPLACE: Mask := 32
  const API_PERM_MANAGE_USERS: Mask := 64
  const API_PERM_MANAGE_LOGS: Mask := 128
  const API_PERM_MANAGE_FILE_REQUESTS: Mask := 256
  const API_PERM_DOWNLOAD: Mask := 512
  const API_PERM_DEFAULT: Mask := API_PERM_VIEW + API_PERM_UPLOAD + API_PERM_DELETE + API_PERM_EDIT

  predicate HasPermission(mask: Mask, permission: Mask) {
    permission == PERMISSION_NONE || mask & permission == permission
  }

  function Granted(mask: Mask, permission: Mask): Mask {
    mask | permission
  }

  function Removed(mask: Mask, permission: Mask): Mask {
    mask & !permission
  }

  /** Removes the permission if it is held. */
  function Stripped(mask: Mask, permission: Mask): Mask {
    if HasPermission(mask, permission) then Removed(mask, permission) else mask
  }

  /** The permission a request header may name; the text is in upper case already. */
  function ApiPermissionFromString(text: string): (permission: Option<Mask>)
    ensures permission.Some? ==> IsApiPermission(permission.value)
  {
    if text == "PERM_VIEW" then Some(API_PERM_VIEW)
    else if text == "PERM_UPLOAD" then Some(API_PERM_UPLOAD)
    else if text == "PERM_DELETE" then Some(API_PERM_DELETE)
    else if text == "PERM_API_MOD" then Some(API_PERM_API_MOD)
    else if text == "PERM_EDIT" then Some(API_PERM_EDIT)
    else if text == "PERM_REPLACE" then Some(API_PERM_REPLACE)
    else if text == "PERM_MANAGE_USERS" then Some(API_PERM_MANAGE_USERS)
    else if text == "PERM_MANAGE_LOGS" then Some(API_PERM_MANAGE_LOGS)
    else if text == "PERM_MANAGE_FILE_REQUESTS" then Some(API_PERM_MANAGE_FILE_REQUESTS)
    else if text == "PERM_DOWNLOAD" then Some(API_PERM_DOWNLOAD)
    else None
  }

  function UserPermissionFromString(text: string): (permission: Option<Mask>)
    ensures permission.Some? ==> IsUserPermission(permission.value)
  {
    if text == "PERM_REPLACE" then Some(USER_PERM_REPLACE_UPLOADS)
    else if text == "PERM_LIST" then Some(USER_PERM_LIST_OTHER_UPLOADS)
    else if text == "PERM_EDIT" then Some(USER_PERM_EDIT_OTHER_UPLOADS)
    else if text == "PERM_REPLACE_OTHER" then Some(USER_PERM_REPLACE_OTHER_UPLOADS)
    else if text == "PERM_DELETE" then Some(USER_PERM_DELETE_OTHER_UPLOADS)
    else if text == "PERM_LOGS" then Some(USER_PERM_MANAGE_LOGS)
    else if text == "PERM_API" then Some(USER_PERM_MANAGE_API_KEYS)
    else if text == "PERM_USERS" then Some(USER_PERM_MANAGE_USERS)
    else if text == "PERM_GUEST_UPLOAD" then Some(USER_PERM_GUEST_UPLOADS)
    else None
  }

  /** Exactly one of the ten API permissions. */
  predicate IsApiPermission(p: Mask) {
    p == 1 || p == 2 || p == 4 || p == 8 || p == 16 || p == 32 || p == 64 || p == 128 || p == 256 || p == 512
  }

  /** Exactly one of the nine user permissions. */
  predicate IsUserPermission(p: Mask) {
    p == 1 || p == 2 || p == 4 || p == 8 || p == 16 || p == 32 || p == 64 || p == 128 || p == 256
  }

  /** The user permission that an API permission presupposes, or none. */
  function RequiredOfOwner(apiPermission: Mask): Mask {
    if apiPermission == API_PERM_REPLACE then USER_PERM_REPLACE_UPLOADS
    else if apiPermission == API_PERM_MANAGE_USERS then USER_PERM_MANAGE_USERS
    else if apiPermission == API_PERM_MANAGE_LOGS then USER_PERM_MANAGE_LOGS
    else if apiPermission == API_PERM_MANAGE_FILE_REQUESTS then USER_PERM_GUEST_UPLOADS
    else PERMISSION_NONE
  }

  /** The API permission that goes when a user loses a permission, or none. */
  function AffectedApiPermission(userPermission: Mask): Mask {
    if userPermission == USER_PERM_MANAGE_USERS then API_PERM_MANAGE_USERS
    else if userPermission == USER_PERM_REPLACE_UPLOADS then API_PERM_REPLACE
    else if userPermission == USER_PERM_MANAGE_LOGS then API_PERM_MANAGE_LOGS
    else if userPermission == USER_PERM_GUEST_UPLOADS then API_PERM_MANAGE_FILE_REQUESTS
    else PERMISSION_NONE
  }

  /** A key with one of the four sensitive permissions belongs to a user with the matching permission. */
  predicate Covered(user: Mask, key: Mask) {
    && (HasPermission(key, API_PERM_REPLACE) ==> HasPermission(user, USER_PERM_REPLACE_UPLOADS))
    && (HasPermission(key, API_PERM_MANAGE_USERS) ==> HasPermission(user, USER_PERM_MANAGE_USERS))
    && (HasPermission(key, API_PERM_MANAGE_LOGS) ==> HasPermission(user, USER_PERM_MANAGE_LOGS))
    && (HasPermission(key, API_PERM_MANAGE_FILE_REQUESTS) ==> HasPermission(user, USER_PERM_GUEST_UPLOADS))
  }

  /** The masks of new keys. */
  lemma NewKeysAreCovered(user: Mask)
    ensures Covered(user, API_PERM_DEFAULT) && Covered(user, PERMISSION_NONE)
  {
  }

  lemma GrantToKeyKeepsCovered(user: Mask, key: Mask, permission: Mask)
    requires Covered(user, key) && IsApiPermission(permission)
    requires HasPermission(user, RequiredOfOwner(permission))
    ensures Covered(user, Granted(key, permission))
  {
  }

  lemma RemoveFromKeyKeepsCovered(user: Mask, key: Mask, permission: Mask)
    requires Covered(user, key)
    ensures Covered(user, Removed(key, permission))
  {
  }

  lemma GrantToUserKeepsCovered(user: Mask, key: Mask, permission: Mask)
    requires Covered(user, key)
    ensures Covered(Granted(user, permission), key)
  {
  }

  lemma RemoveFromUserKeepsCovered(user: Mask, key: Mask, permission: Mask)
    requires Covered(user, key) && IsUserPermission(permission)
    ensures Covered(Removed(user, permission), Stripped(key, AffectedApiPermission(permission)))
  {
  }

  /** An administrator's mask covers every key, and a mask without the four permissions is covered by everybody. */
  lemma ExtremesAreCovered(user: Mask, key: Mask)
    ensures Covered(USER_PERMISSION_ALL, key)
    ensures Covered(user, DemotedKey(key))
  {
  }

  /** A key after its owner lost every permission. */
  function DemotedKey(key: Mask): Mask {
    Stripped(Stripped(Stripped(Stripped(key, API_PERM_REPLACE), API_PERM_MANAGE_USERS), API_PERM_MANAGE_LOGS),
             API_PERM_MANAGE_FILE_REQUESTS)
  }

  /** The checks of token generation, on any mask: nothing uncovered passes, and nothing covered is refused. */
  lemma TokenChecksAreExact(user: Mask, requested: Mask)
    ensures Covered(user, requested) <==> TokenAllowed(user, requested)
  {
  }

  predicate ContainsApiPermission(requested: Mask, permission: Mask) {
    permission & requested == permission
  }

  predicate TokenAllowed(user: Mask, requested: Mask) {
    && !(ContainsApiPermission(requested, API_PERM_REPLACE) && !HasPermission(user, USER_PERM_REPLACE_UPLOADS))
    && !(ContainsApiPermission(requested, API_PERM_MANAGE_USERS) && !HasPermission(user, USER_PERM_MANAGE_USERS))
    && !(ContainsApiPermission(requested, API_PERM_MANAGE_LOGS) && !HasPermission(user, USER_PERM_MANAGE_LOGS))
    && !(ContainsApiPermission(requested, API_PERM_MANAGE_FILE_REQUESTS) && !HasPermission(user, USER_PERM_GUEST_UPLOADS))
  }

  const SENSITIVE: Mask := API_PERM_REPLACE | API_PERM_MANAGE_USERS | API_PERM_MANAGE_LOGS | API_PERM_MANAGE_FILE_REQUESTS

  /** The handler's check of the owner makes a grant of these permissions safe, whoever owns whichever key. */
  ghost predicate OwnerCheckIsEnough(permission: Mask) {
    forall user, key :: Covered(user, key) && HasPermission(user, RequiredOfOwner(permission)) ==> Covered(user, Granted(key, permission))
  }

  /** The switch on permissions is enough exactly for masks without a sensitive permission and for single sensitive ones. */
  lemma OwnerCheckIsEnoughExactlyFor(permission: Mask)
    ensures OwnerCheckIsEnough(permission)
            <==> permission & SENSITIVE == 0
                 || permission in {API_PERM_REPLACE, API_PERM_MANAGE_USERS, API_PERM_MANAGE_LOGS, API_PERM_MANAGE_FILE_REQUESTS}
  {
    if permission & SENSITIVE != 0 && RequiredOfOwner(permission) == PERMISSION_NONE {
      var user, key := PERMISSION_NONE, PERMISSION_NONE;
      assert Covered(user, key) && HasPermission(user, RequiredOfOwner(permission));
      assert !Covered(user, Granted(key, permission));
    }
  }

  /** Every bit of the mask is one of the bound. */
  predicate Within(mask: Mask, bound: Mask) {
    mask & !bound == 0
  }

  /** What a handler may make of a user's mask. */
  datatype MaskChange = Kept | Cleared | Lost | Gained

  function Changed(change: MaskChange, user: Mask, permission: Mask): Mask {
    match change
    case Kept => user
    case Cleared => PERMISSION_NONE
    case Lost => Removed(user, permission)
    case Gained => Granted(user, permission)
  }

  /** A permission that the actor has is the most that is added. */
  lemma ChangeIsWithin(change: MaskChange, user: Mask, actor: Mask, permission: Mask)
    requires change.Gained? ==> HasPermission(actor, permission)
    ensures Within(Changed(change, user, permission), user | actor)
  {
    match change
    case Kept =>
    case Cleared =>
    case Lost =>
    case Gained => GrantedIsWithin(user, actor, permission);
  }

  lemma GrantedIsWithin(user: Mask, actor: Mask, permission: Mask)
    requires HasPermission(actor, permission)
    ensures Within(Granted(user, permission), user | actor)
  {
    if permission == PERMISSION_NONE {
      NothingAdded(user, actor);
    } else {
      BitsOfTheActor(user, actor, permission);
    }
  }

  lemma NothingAdded(user: bv16, actor: bv16)
    ensures (user | 0) & !(user | actor) == 0
  {
  }

  lemma BitsOfTheActor(user: bv16, actor: bv16, permission: bv16)
    requires actor & permission == permission
    ensures (user | permission) & !(user | actor) == 0
  {
    assert user | actor == (user | permission) | actor;
  }

  lemma AbsentStaysAbsent(mask: Mask, user: Mask, actor: Mask, permission: Mask)
    requires Within(mask, user | actor) && IsUserPermission(permission)
    requires !HasPermission(user, permission) && !HasPermission(actor, permission)
    ensures !HasPermission(mask, permission)
  {
  }

  lemma NewUsersHaveGuestUploadsAtMost(permission: Mask)
    requires IsUserPermission(permission) && permission != USER_PERM_GUEST_UPLOADS
    ensures !HasPermission(PERMISSION_NONE, permission)
    ensures !HasPermission(Granted(PERMISSION_NONE, USER_PERM_GUEST_UPLOADS), permission)
  {
  }
}
