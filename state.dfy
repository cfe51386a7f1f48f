/** The second copy of the session's key state, kept by the application shell. It
    has only a reset. */
module State {
  import opened Key
  import KeyState

  /** `GlobalKeyState` of the shell: a record of its own, not the one `KeyState` keeps. */
  class GlobalKeyState {
    var key: string
    var name: string
    var isActive: bool
    var isAdmin: bool
    var createdAt: string
    var updatedAt: string

    /** The six fields as one record. */
    function Record(): KeyObject
      reads this
    {
      KeyObject(key, name, createdAt, updatedAt, isActive, isAdmin)
    }

    /** The initial value: empty strings and both flags off. */
    constructor ()
      ensures Record() == EmptyKey()
    {
      key, name := "", "";
      isActive, isAdmin := false, false;
      createdAt, updatedAt := "", "";
    }

    /** `ResetKeyState()`: back to the initial value, whatever the state was. */
    method Reset()
      modifies this
      ensures Record() == EmptyKey()
    {
      key := "";
      name := "";
      isActive := false;
      isAdmin := false;
      createdAt := "";
      updatedAt := "";
    }
  }

  /** Reset is idempotent: resetting a state that was just reset changes nothing. */
  method ResetTwice(s: GlobalKeyState)
    requires s.Record() == EmptyKey()
    modifies s
    ensures s.Record() == old(s.Record())
  {
    s.Reset();
  }

  /** Resetting the shell's copy leaves the other copy as it was, valid or not. */
  method ResetLeavesOther(shell: GlobalKeyState, session: KeyState.GlobalKeyState)
    modifies shell
    ensures shell.Record() == EmptyKey()
    ensures session.Record() == old(session.Record())
    ensures session.IsValid() == old(session.IsValid())
  {
    shell.Reset();
  }
}
