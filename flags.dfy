/** The XJC command-line switches the generator can pass (the Flags enum;
    the generator module's nested Flags enum is the same table). */
module Flags {
  import opened Text

  datatype Flag =
    | Extension
    | MarkGenerated
    | AutoNameResolution
    | GenerateEquals
    | GenerateHashCode
    | GenerateToString

  /** Flags.values(), in declaration order. */
  const AllFlags: seq<Flag> :=
    [Extension, MarkGenerated, AutoNameResolution, GenerateEquals, GenerateHashCode, GenerateToString]

  /** Flags.DEFAULTS, used when a caller passes no flags. */
  const Defaults: seq<Flag> := [Extension, AutoNameResolution]

  /** The command-line token of a flag; every one is a `-` option. */
  function Value(f: Flag): (v: string)
    ensures |v| >= 2 && v[0] == '-' && StartsWith(v, "-")
  {
    match f
    case Extension => "-extension"
    case MarkGenerated => "-mark-generated"
    case AutoNameResolution => "-XautoNameResolution"
    case GenerateEquals => "-Xequals"
    case GenerateHashCode => "-XhashCode"
    case GenerateToString => "-XtoString"
  }

  /** The tokens of a list of flags, in list order. */
  function Tokens(flags: seq<Flag>): (ts: seq<string>)
    ensures |ts| == |flags|
    ensures forall i :: 0 <= i < |flags| ==> ts[i] == Value(flags[i])
  {
    if flags == [] then [] else Tokens(flags[..|flags| - 1]) + [Value(flags[|flags| - 1])]
  }

  /** The enum has exactly six constants. */
  lemma AllFlagsComplete(f: Flag)
    ensures f in AllFlags && |AllFlags| == 6
  {
  }

  /** No two constants share a token. */
  lemma ValuesDistinct()
    ensures forall i, j :: 0 <= i < j < |AllFlags| ==> Value(AllFlags[i]) != Value(AllFlags[j])
  {
    assert Value(Extension)[1] == 'e';
    assert Value(MarkGenerated)[1] == 'm';
    assert Value(AutoNameResolution)[2] == 'a';
    assert Value(GenerateEquals)[2] == 'e';
    assert Value(GenerateHashCode)[2] == 'h';
    assert Value(GenerateToString)[2] == 't';
  }

  /** The default flags produce exactly these two tokens. */
  lemma DefaultTokens()
    ensures Tokens(Defaults) == ["-extension", "-XautoNameResolution"]
  {
  }
}
