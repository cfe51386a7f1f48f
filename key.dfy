/** The key record the backend issues and the body of its validation response. */
module Key {
  import opened Wrappers

  /** `KeyObject`; `createdAt`, `updatedAt`, `isActive` and `isAdmin` are the wire
      fields `created_at`, `updated_at`, `is_active` and `is_admin`. */
  datatype KeyObject = KeyObject(
    key: string,
    name: string,
    createdAt: string,
    updatedAt: string,
    isActive: bool,
    isAdmin: bool)

  /** `ValidateKeyResponse`: both fields are optional. */
  datatype ValidateKeyResponse = ValidateKeyResponse(message: Option<string>, key: Option<KeyObject>)

  /** The empty record both key states start from and reset to. */
  function EmptyKey(): (k: KeyObject)
    ensures k.key == "" && k.name == "" && k.createdAt == "" && k.updatedAt == ""
    ensures !k.isActive && !k.isAdmin
    ensures !Usable(k)
  {
    KeyObject("", "", "", "", false, false)
  }

  /** The session invariant: a key is usable when it is active and its key, name and
      creation time are filled in. */
  predicate Usable(k: KeyObject) {
    k.isActive && k.key != "" && k.name != "" && k.createdAt != ""
  }

  /** The admin flag and the update time play no part in usability. */
  lemma UsableIgnoresAdminAndUpdate(k: KeyObject, admin: bool, updated: string)
    ensures Usable(k.(isAdmin := admin, updatedAt := updated)) == Usable(k)
  {
  }
}
