/** Password rules: a minimal password length that later directives can only raise. */
module Passwords {
  import opened Messages

  class PasswdRules {
    var minlen: int

    ghost predicate Valid()
      reads this
    {
      minlen >= 0
    }

    constructor ()
      ensures Valid() && minlen == 0
    {
      minlen := 0;
    }

    /** update_minlen: keeps the larger of the stored and the new length. */
    method UpdateMinlen(minlen: int)
      requires Valid()
      modifies this
      ensures Valid()
      ensures this.minlen >= old(this.minlen) && this.minlen >= minlen
      ensures this.minlen == old(this.minlen) || this.minlen == minlen
    {
      if minlen > this.minlen {
        this.minlen := minlen;
      }
    }

    /**
     * eval_rules: password length cannot be enforced during installation, so a positive
     * minimum yields exactly one Warning naming it, and nothing else; the plan is never touched.
     */
    function EvalRules(): (messages: seq<Message>)
      reads this
      ensures |messages| <= 1
      ensures messages != [] <==> minlen > 0
      ensures forall m :: m in messages ==> m == Message(Warning, PasswordMinLength(minlen))
    {
      PasswdMessages(minlen)
    }
  }

  function PasswdMessages(minlen: int): (messages: seq<Message>)
    ensures |messages| <= 1
    ensures messages != [] <==> minlen > 0
    ensures forall m :: m in messages ==> m == Message(Warning, PasswordMinLength(minlen))
  {
    if minlen > 0 then [Message(Warning, PasswordMinLength(minlen))] else []
  }
}
