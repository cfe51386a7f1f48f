/** The session's key state: one shared record, a validity check on it, and
    whole-record update and reset. */
module KeyState {
  import opened Key

  /** `GlobalKeyState`, the record the client keeps for the signed-in key. */
  class GlobalKeyState {
    var key: string
    var name: string
    var isActive: bool
    var isAdmin: bool
    var createdAt: string
    var updatedAt: string

    /** The six fields as one record. */
    function Record(): KeyObject
      reads this
    {
      KeyObject(key, name, createdAt, updatedAt, isActive, isAdmin)
    }

    /** The initial value: empty strings and both flags off. */
    constructor ()
      ensures Record() == EmptyKey()
      ensures !IsValid()
    {
      key, name := "", "";
      isActive, isAdmin := false, false;
      createdAt, updatedAt := "", "";
    }

    /** `IsValidKeyState()`: the record is usable. */
    function IsValid(): (valid: bool)
      reads this
      ensures valid == Usable(Record())
      ensures valid ==> key != "" && name != "" && createdAt != ""
    {
      isActive && key != "" && name != "" && createdAt != ""
    }

    /** `UpdateKeyState(k)`: every field is copied from `k`. */
    method Update(k: KeyObject)
      modifies this
      ensures Record() == k
      ensures IsValid() == Usable(k)
    {
      key := k.key;
      name := k.name;
      isActive := k.isActive;
      isAdmin := k.isAdmin;
      createdAt := k.createdAt;
      updatedAt := k.updatedAt;
    }

    /** `ResetKeyState()`: back to the initial value, whatever the state was. */
    method Reset()
      modifies this
      ensures Record() == EmptyKey()
      ensures !IsValid()
    {
      key := "";
      name := "";
      isActive := false;
      isAdmin := false;
      createdAt := "";
      updatedAt := "";
    }
  }

  /** Reset is idempotent: resetting a state that was just reset changes nothing. */
  method ResetTwice(s: GlobalKeyState)
    requires s.Record() == EmptyKey()
    modifies s
    ensures s.Record() == old(s.Record())
  {
    s.Reset();
  }

  /** An update followed by a reset leaves nothing of the update behind. */
  method UpdateThenReset(s: GlobalKeyState, k: KeyObject)
    modifies s
    ensures s.Record() == EmptyKey()
    ensures !s.IsValid()
  {
    s.Update(k);
    s.Reset();
  }
}
