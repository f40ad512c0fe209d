/** The append-only argument list handed to XJC (class Arguments). */
module Args {
  import opened Wrappers
  import opened Text

  /** The tokens add(key, value) appends after the key. */
  function ValueTokens(value: Option<string>): (ts: seq<string>)
    ensures value.None? ==> ts == []
    ensures value.Some? ==> ts == [value.value]
  {
    match value
    case None => []
    case Some(v) => [v]
  }

  class Arguments {
    var argsList: seq<string>

    constructor ()
      ensures argsList == []
    {
      argsList := [];
    }

    /** add(value): one more token at the end; never fails. */
    method AddValue(value: string)
      modifies this
      ensures argsList == old(argsList) + [value]
    {
      argsList := argsList + [value];
    }

    /** add(key, value): rejects a key without a leading '-' and leaves the
        list as it was; otherwise appends the key and then the value. */
    method Add(key: string, value: Option<string>) returns (o: Outcome)
      modifies this
      ensures o == if StartsWith(key, "-") then Pass else Fail(IllegalArgument("Key must start with -"))
      ensures o.Fail? ==> argsList == old(argsList)
      ensures o.Pass? ==> argsList == old(argsList) + [key] + ValueTokens(value)
      ensures old(argsList) <= argsList
    {
      if !StartsWith(key, "-") {
        return Fail(IllegalArgument("Key must start with -"));
      }
      argsList := argsList + [key];
      if value.Some? {
        argsList := argsList + [value.value];
      }
      o := Pass;
    }

    /** getArgs(): every token, in the order it was added. */
    method GetArgs() returns (args: seq<string>)
      ensures args == argsList
    {
      args := argsList;
    }
  }
}
