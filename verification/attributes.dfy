/**
 AttributeData: the arguments of one `[AdditionalTextConstants]` attribute,
 decoded from its positional arguments with named arguments applied on top,
 and the path of the file that declares it.
 */
module Attributes {
  import opened Wrappers

  /** The value of a TypedConstant as the decoder sees it: `null`, a `bool`, a `string`, or
      anything else (a number, an enum, a type). */
  datatype Value = Null | Bool(b: bool) | Str(s: string) | Other

  datatype NamedArgument = NamedArgument(key: string, value: Value)

  /** What the attribute's syntax context supplies: the attributed type's name, the path of
      the syntax tree it is declared in, and the first attribute's arguments. */
  datatype AttributeSyntax = AttributeSyntax(
    targetName: string,
    treeFilePath: string,
    constructorArguments: seq<Value>,
    namedArguments: seq<NamedArgument>)

  datatype AttributeData = AttributeData(
    extensionArg: string,
    pathArg: string,
    outputDiagnosticTraceLog: bool,
    filePath: string)

  const DefaultExtension: string := ".txt"
  const ExtensionKey: string := "Extension"
  const PathKey: string := "Path"
  const DiagnosticTraceLogKey: string := "DiagnosticTraceLog"

  /** `args[i].Value as string`, or `None` when there is no such argument or it is not a string. */
  function PositionalString(args: seq<Value>, i: nat): (r: Option<string>)
    ensures r.Some? <==> i < |args| && args[i].Str?
    ensures r.Some? ==> r.value == args[i].s
  {
    if i < |args| && args[i].Str? then Some(args[i].s) else None
  }

  /** One turn of the loop over the named arguments: a `bool` under `DiagnosticTraceLog` and a
      `string` under `Extension` or `Path` are taken; everything else is passed over. */
  function ApplyNamedArgument(data: AttributeData, arg: NamedArgument): AttributeData
  {
    match arg.value
    case Bool(b) =>
      if arg.key == DiagnosticTraceLogKey then data.(outputDiagnosticTraceLog := b) else data
    case Str(s) =>
      if arg.key == ExtensionKey then data.(extensionArg := s)
      else if arg.key == PathKey then data.(pathArg := s)
      else data
    case _ => data
  }

  /** The loop over the named arguments, in order. */
  function ApplyNamedArguments(data: AttributeData, named: seq<NamedArgument>): (r: AttributeData)
    ensures r.filePath == data.filePath
    decreases |named|
  {
    if named == [] then data else ApplyNamedArguments(ApplyNamedArgument(data, named[0]), named[1..])
  }

  /** The AttributeData constructor. */
  function FromSyntax(syntax: AttributeSyntax): (r: AttributeData)
    ensures r.filePath == syntax.treeFilePath
  {
    var extensionArg := PositionalString(syntax.constructorArguments, 0).GetOr(DefaultExtension);
    var pathArg := PositionalString(syntax.constructorArguments, 1).GetOr(syntax.targetName);
    var data := ApplyNamedArguments(AttributeData(extensionArg, pathArg, false, ""), syntax.namedArguments);
    data.(filePath := syntax.treeFilePath)
  }

  // ---------------------------------------------------------------------
  // Reference definitions: the last argument of each kind wins
  // ---------------------------------------------------------------------

  /** The last `string` value given under `key`, if any. */
  function LastString(named: seq<NamedArgument>, key: string): Option<string>
  {
    if named == [] then None
    else
      var last := named[|named| - 1];
      if last.key == key && last.value.Str? then Some(last.value.s)
      else LastString(named[..|named| - 1], key)
  }

  /** The last `bool` value given under `key`, if any. */
  function LastBool(named: seq<NamedArgument>, key: string): Option<bool>
  {
    if named == [] then None
    else
      var last := named[|named| - 1];
      if last.key == key && last.value.Bool? then Some(last.value.b)
      else LastBool(named[..|named| - 1], key)
  }

  /** An argument the loop passes over. */
  predicate Ignored(arg: NamedArgument)
  {
    match arg.value
    case Bool(_) => arg.key != DiagnosticTraceLogKey
    case Str(_) => arg.key != ExtensionKey && arg.key != PathKey
    case _ => true
  }

  // ---------------------------------------------------------------------
  // Properties
  // ---------------------------------------------------------------------

  /** Applying a sequence of named arguments is applying its parts one after the other. */
  lemma {:induction false} ApplyNamedArgumentsAppend(data: AttributeData, a: seq<NamedArgument>, b: seq<NamedArgument>)
    ensures ApplyNamedArguments(data, a + b) == ApplyNamedArguments(ApplyNamedArguments(data, a), b)
    decreases |a|
  {
    if a == [] {
      assert a + b == b;
    } else {
      assert (a + b)[0] == a[0];
      assert (a + b)[1..] == a[1..] + b;
      ApplyNamedArgumentsAppend(ApplyNamedArgument(data, a[0]), a[1..], b);
    }
  }

  lemma ApplyNamedArgumentsSingle(data: AttributeData, arg: NamedArgument)
    ensures ApplyNamedArguments(data, [arg]) == ApplyNamedArgument(data, arg)
  {
    assert [arg][1..] == [];
  }

  /** After the loop each field holds the last value given for it, or what it held before. */
  lemma {:induction false} ApplyNamedArgumentsLastWins(data: AttributeData, named: seq<NamedArgument>)
    ensures var r := ApplyNamedArguments(data, named);
      && r.extensionArg == LastString(named, ExtensionKey).GetOr(data.extensionArg)
      && r.pathArg == LastString(named, PathKey).GetOr(data.pathArg)
      && r.outputDiagnosticTraceLog == LastBool(named, DiagnosticTraceLogKey).GetOr(data.outputDiagnosticTraceLog)
    decreases |named|
  {
    if named != [] {
      var init := named[..|named| - 1];
      var last := named[|named| - 1];
      assert named == init + [last];
      ApplyNamedArgumentsAppend(data, init, [last]);
      ApplyNamedArgumentsSingle(ApplyNamedArguments(data, init), last);
      ApplyNamedArgumentsLastWins(data, init);
    }
  }

  /** The decoded attribute: named arguments override positional ones, which override the
      defaults (`.txt`, and the attributed type's name); the trace flag is off unless a named
      `bool` sets it; the file path is the declaring tree's. */
  lemma FromSyntaxFields(syntax: AttributeSyntax)
    ensures var r := FromSyntax(syntax);
      var args := syntax.constructorArguments;
      var named := syntax.namedArguments;
      && r.extensionArg == LastString(named, ExtensionKey).GetOr(PositionalString(args, 0).GetOr(DefaultExtension))
      && r.pathArg == LastString(named, PathKey).GetOr(PositionalString(args, 1).GetOr(syntax.targetName))
      && r.outputDiagnosticTraceLog == LastBool(named, DiagnosticTraceLogKey).GetOr(false)
      && r.filePath == syntax.treeFilePath
  {
    var args := syntax.constructorArguments;
    var initial := AttributeData(
      PositionalString(args, 0).GetOr(DefaultExtension),
      PositionalString(args, 1).GetOr(syntax.targetName),
      false, "");
    ApplyNamedArgumentsLastWins(initial, syntax.namedArguments);
  }

  /** Without named arguments: the first positional string or `.txt`, the second positional
      string or the type's name, and no trace log. */
  lemma PositionalDefaults(syntax: AttributeSyntax)
    requires syntax.namedArguments == []
    ensures var r := FromSyntax(syntax);
      var args := syntax.constructorArguments;
      && (|args| == 0 || !args[0].Str? ==> r.extensionArg == DefaultExtension)
      && (|args| > 0 && args[0].Str? ==> r.extensionArg == args[0].s)
      && (|args| < 2 || !args[1].Str? ==> r.pathArg == syntax.targetName)
      && (|args| >= 2 && args[1].Str? ==> r.pathArg == args[1].s)
      && !r.outputDiagnosticTraceLog
  {
  }

  /** An argument with a `null` value, an unknown key or a value of the wrong type changes
      nothing, wherever it stands. */
  lemma IgnoredArgumentChangesNothing(syntax: AttributeSyntax, i: nat, arg: NamedArgument)
    requires i <= |syntax.namedArguments| && Ignored(arg)
    ensures var named := syntax.namedArguments;
      FromSyntax(syntax.(namedArguments := named[..i] + [arg] + named[i..])) == FromSyntax(syntax)
  {
    var named := syntax.namedArguments;
    var args := syntax.constructorArguments;
    var initial := AttributeData(
      PositionalString(args, 0).GetOr(DefaultExtension),
      PositionalString(args, 1).GetOr(syntax.targetName),
      false, "");
    var a, b := named[..i], named[i..];
    assert named == a + b;
    ApplyNamedArgumentsAppend(initial, a + [arg], b);
    ApplyNamedArgumentsAppend(initial, a, [arg]);
    ApplyNamedArgumentsSingle(ApplyNamedArguments(initial, a), arg);
    ApplyNamedArgumentsAppend(initial, a, b);
  }

  /** A string under `DiagnosticTraceLog` is one such argument. */
  lemma StringTraceLogIsIgnored(s: string)
    ensures Ignored(NamedArgument(DiagnosticTraceLogKey, Str(s)))
  {
  }
}
