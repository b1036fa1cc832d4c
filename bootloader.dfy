/** Bootloader rules: whether a bootloader password is required, a flag that is never cleared. */
module Bootloader {
  import opened Messages

  class BootloaderRules {
    var requirePassword: bool

    constructor ()
      ensures !requirePassword
    {
      requirePassword := false;
    }

    /** require_password: sets the flag. */
    method RequirePassword()
      modifies this
      ensures requirePassword
    {
      requirePassword := true;
    }

    /**
     * The evaluation this class inherits from the base rule handler: no message, and the plan
     * is left alone, whatever the flag says.
     */
    function EvalRules(): (messages: seq<Message>)
      ensures messages == []
    {
      []
    }
  }
}
