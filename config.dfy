/** The parts of the editor's configuration with behaviour of their own: the
    rule tying the output format to the presence of an output file, applied at
    the end of `parse_args`, and `DictAction`, the argument action that
    collects a repeatable option into a dictionary whose values are `True`.
    The argument parser itself and the same-file test of `Config.finish` are
    outside the model. */
module Config {
  import opened Results

  // ---------------------------------------------------------------------
  // Output formats

  /** The choices of `-o/--output`. */
  datatype OutputMode = Savegame | Decoded | DecodedJson | Json | Items | NoOutput

  /** The spelling of each choice on the command line. */
  function ModeName(m: OutputMode): (r: string)
  {
    match m
    case Savegame => "savegame"
    case Decoded => "decoded"
    case DecodedJson => "decodedjson"
    case Json => "json"
    case Items => "items"
    case NoOutput => "none"
  }

  /** The choice a command-line word names, if any. */
  function ModeOfName(s: string): (r: Option<OutputMode>)
    ensures r.Some? ==> ModeName(r.value) == s
  {
    if s == "savegame" then Some(Savegame)
    else if s == "decoded" then Some(Decoded)
    else if s == "decodedjson" then Some(DecodedJson)
    else if s == "json" then Some(Json)
    else if s == "items" then Some(Items)
    else if s == "none" then Some(NoOutput)
    else None
  }

  /** Every choice is read back from its spelling, so the spellings are
      distinct. */
  lemma ModeNamesRoundTrip(m: OutputMode)
    ensures ModeOfName(ModeName(m)) == Some(m)
  {
  }

  /** The message of the error raised when a format other than `savegame` or
      `none` is asked for without an output file. */
  function NoFilenameMessage(m: OutputMode): string
  {
    "No output_filename was specified, but output type '" + ModeName(m) + "' was specified"
  }

  const NoneWithFilenameMessage: string := "Output filename specified but with `none` output"

  /** The output format after the consistency check at the end of
      `parse_args`, or the usage error it raises. */
  function ResolveOutput(output: OutputMode, outputFilename: Option<string>): (r: Result<OutputMode>)
    ensures outputFilename.None? ==> (r.Success? <==> output == Savegame || output == NoOutput)
    ensures outputFilename.None? && r.Success? ==> r.value == NoOutput
    ensures outputFilename.None? && r.Failure? ==> r.error == UsageError(NoFilenameMessage(output))
    ensures outputFilename.Some? ==> (r.Failure? <==> output == NoOutput)
    ensures outputFilename.Some? && r.Success? ==> r.value == output
    ensures outputFilename.Some? && r.Failure? ==> r.error == UsageError(NoneWithFilenameMessage)
  {
    if outputFilename.None? then
      if output != Savegame && output != NoOutput then Failure(UsageError(NoFilenameMessage(output)))
      else Success(NoOutput)
    else if output == NoOutput then Failure(UsageError(NoneWithFilenameMessage))
    else Success(output)
  }

  /** A configuration that passes the check is consistent: the format is
      `none` exactly when there is no output file, and checking it again
      changes nothing. */
  lemma ResolvedIsConsistent(output: OutputMode, outputFilename: Option<string>)
    requires ResolveOutput(output, outputFilename).Success?
    ensures var m := ResolveOutput(output, outputFilename).value;
      (m == NoOutput <==> outputFilename.None?) && ResolveOutput(m, outputFilename) == Success(m)
  {
  }

  // ---------------------------------------------------------------------
  // DictAction

  /** The value an attribute of the namespace holds, as far as `DictAction`
      can tell: a dictionary, or anything else (`None` included). */
  datatype Attr = DictAttr(entries: map<string, bool>) | OtherAttr

  /** An action object: the option strings it answers to and the attribute
      it fills. */
  datatype DictAction = DictAction(optionStrings: seq<string>, dest: string)

  const NargsMessage: string := "nargs is not allowed"

  /** `DictAction.__init__`: any `nargs` is refused with a ValueError. */
  function NewDictAction(optionStrings: seq<string>, dest: string, nargs: Option<string>): (r: Result<DictAction>)
    ensures r.Failure? <==> nargs.Some?
    ensures r.Failure? ==> r.error == ValueRejected(NargsMessage)
    ensures r.Success? ==> r.value.optionStrings == optionStrings && r.value.dest == dest
  {
    if nargs.Some? then Failure(ValueRejected(NargsMessage))
    else Success(DictAction(optionStrings, dest))
  }

  /** The dictionary `DictAction.__call__` stores: the current dictionary, or
      a fresh one when the attribute holds something else, with `value`
      mapped to `True`. Every other key keeps its value. */
  function DictAfter(current: Attr, value: string): (r: map<string, bool>)
    ensures value in r && r[value]
    ensures forall k :: k in r <==> k == value || (current.DictAttr? && k in current.entries)
    ensures current.DictAttr? ==> forall k :: k in current.entries && k != value ==> r[k] == current.entries[k]
  {
    var base := if current.DictAttr? then current.entries else map[];
    base[value := true]
  }

  /** The attribute after the option was given with each of `values` in
      turn, starting from `start`. */
  function AfterAll(start: Attr, values: seq<string>): Attr
    decreases |values|
  {
    if |values| == 0 then start else AfterAll(DictAttr(DictAfter(start, values[0])), values[1..])
  }

  /** Giving a dictionary option one or more times, starting from its default
      (`None`), collects exactly the values given, each mapped to `True`. */
  lemma CollectsChoices(values: seq<string>)
    requires |values| > 0
    ensures AfterAll(OtherAttr, values).DictAttr?
    ensures forall k :: k in AfterAll(OtherAttr, values).entries <==> k in values
    ensures forall k :: k in AfterAll(OtherAttr, values).entries ==> AfterAll(OtherAttr, values).entries[k]
  {
    var first := DictAfter(OtherAttr, values[0]);
    assert first == map[values[0] := true];
    CollectsFrom(map[values[0] := true], values[1..]);
    assert values == [values[0]] + values[1..];
  }

  /** From a dictionary whose values are all `True`, further calls add their
      values and keep everything else, still all `True`. */
  lemma {:induction false} CollectsFrom(m: map<string, bool>, values: seq<string>)
    requires forall k :: k in m ==> m[k]
    ensures AfterAll(DictAttr(m), values).DictAttr?
    ensures forall k :: k in AfterAll(DictAttr(m), values).entries <==> k in m || k in values
    ensures forall k :: k in AfterAll(DictAttr(m), values).entries ==> AfterAll(DictAttr(m), values).entries[k]
    decreases |values|
  {
    if |values| > 0 {
      var next := DictAfter(DictAttr(m), values[0]);
      CollectsFrom(next, values[1..]);
      assert values == [values[0]] + values[1..];
    }
  }

  // ---------------------------------------------------------------------
  // The configuration object

  /** The parsed command line: the output format, the optional output file and
      the attributes filled by dictionary actions. */
  class Config {
    var output: OutputMode
    var outputFilename: Option<string>
    var attrs: map<string, Attr>

    /** A fresh configuration holds the class defaults: `savegame` output,
        no attributes. */
    constructor ()
      ensures output == Savegame && outputFilename == Some("-") && attrs == map[]
    {
      output := Savegame;
      outputFilename := Some("-");
      attrs := map[];
    }

    /** The tail of `parse_args`: without an output file the format becomes
        `none` (or the call stops with a usage error); with one, a `none`
        format is an error and any other is left as it is. */
    method CheckOutput() returns (outcome: Outcome)
      modifies this
      ensures match ResolveOutput(old(output), outputFilename)
        case Success(m) => outcome == Pass && output == m
        case Failure(e) => outcome == Fail(e) && output == old(output)
      ensures outputFilename == old(outputFilename) && attrs == old(attrs)
    {
      if outputFilename.None? {
        if output != Savegame && output != NoOutput {
          return Fail(UsageError(NoFilenameMessage(output)));
        }
        output := NoOutput;
      } else {
        if output == NoOutput {
          return Fail(UsageError(NoneWithFilenameMessage));
        }
      }
      outcome := Pass;
    }

    /** What `parse_args` does for an action before reading the command line:
        an attribute the namespace does not have yet is set to the action's
        default (`None` here); one it already has is kept. Afterwards the
        attribute is there, so the action can read it. */
    method SeedDefault(action: DictAction)
      modifies this
      ensures action.dest !in old(attrs) ==> attrs == old(attrs)[action.dest := OtherAttr]
      ensures action.dest in old(attrs) ==> attrs == old(attrs)
      ensures action.dest in attrs
      ensures output == old(output) && outputFilename == old(outputFilename)
    {
      if action.dest !in attrs {
        attrs := attrs[action.dest := OtherAttr];
      }
    }

    /** `DictAction.__call__` with this configuration as the namespace: the
        action's attribute becomes the dictionary `DictAfter` describes.
        Reading an attribute that was never set raises AttributeError. */
    method ApplyDictAction(action: DictAction, value: string) returns (outcome: Outcome)
      modifies this
      ensures action.dest !in old(attrs) ==> outcome == Fail(MissingAttribute) && attrs == old(attrs)
      ensures action.dest in old(attrs) ==>
        outcome == Pass && attrs == old(attrs)[action.dest := DictAttr(DictAfter(old(attrs)[action.dest], value))]
      ensures output == old(output) && outputFilename == old(outputFilename)
    {
      if action.dest !in attrs {
        return Fail(MissingAttribute);
      }
      var argValue := attrs[action.dest];
      var entries: map<string, bool> := map[];
      if argValue.DictAttr? {
        entries := argValue.entries;
      }
      entries := entries[value := true];
      attrs := attrs[action.dest := DictAttr(entries)];
      outcome := Pass;
    }
  }
}
