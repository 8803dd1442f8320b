/**
 The generator's pipeline with the incremental plumbing taken away: every
 `[AdditionalTextConstants]` declaration gets a glob (a directory and an
 extension), every additional text gets the glob of its own path, each text
 is paired with every declaration whose glob it matches, the pairs are
 grouped by declaration, and each declaration looks up its group (a left
 join, so a declaration nothing matched gets an empty array).
 */
module Generator {
  import opened Wrappers
  import opened Paths
  import opened ContentCreator
  import opened Attributes
  import opened Options
  import opened Grouping

  /** The attributed type and its decoded attribute. The type is identified by the names of its
      namespace and enclosing types, outermost first, and its own name: two types that differ in
      any of these are different keys of the grouping, as they get different hint names. */
  datatype AttributeContext = AttributeContext(containing: seq<string>, typeName: string, attributeData: AttributeData)

  /** A directory and an extension. The directory of a text is absent when Path.GetDirectoryName
      returns null (a root path); a bare file name has the directory "". A declaration's directory
      is always present. */
  datatype Glob = Glob(directory: Option<string>, extension: string)

  datatype AttributeAndOptions = AttributeAndOptions(attributeContext: AttributeContext, options: GeneratorOptions)
  datatype AttributeAndGlob = AttributeAndGlob(attributeContext: AttributeContext, glob: Glob)
  datatype AdditionalTextAndGlob = AdditionalTextAndGlob(additionalText: AdditionalText, glob: Glob)
  datatype AdditionalTextAndGlobWithAttributeGlobs =
    AdditionalTextAndGlobWithAttributeGlobs(additionalTextAndGlob: AdditionalTextAndGlob, attributeGlobs: seq<Glob>)
  datatype AdditionalTextGlobsAndAdditionalTextContents =
    AdditionalTextGlobsAndAdditionalTextContents(fileAndGlobs: AdditionalTextAndGlobWithAttributeGlobs, additionalTextContent: AdditionalTextContent)

  /** A declaration and the content of one text it matched. */
  type AttributeAndAdditionalText = (AttributeContext, AdditionalTextContent)

  /** One generation input: a declaration, the build options and the contents it matched. */
  datatype AttributeOptionsAndAdditionalTexts = AttributeOptionsAndAdditionalTexts(
    context: AttributeContext, options: GeneratorOptions, textContents: seq<AdditionalTextContent>)

  /** The extension that, on a declaration, matches every extension. */
  const AnyExtension: string := ".*"

  // ---------------------------------------------------------------------
  // Matching
  // ---------------------------------------------------------------------

  /** The match rule shared by the pre-filter and the fan-out: the same directory (both absent
      counts as the same), and the declaration's extension is `.*` or the text's own. */
  predicate GlobMatches(textGlob: Glob, declarationGlob: Glob)
  {
    && textGlob.directory == declarationGlob.directory
    && (declarationGlob.extension == AnyExtension || textGlob.extension == declarationGlob.extension)
  }

  /** DoesAdditionalTextGlobMatchAnyAttributeGlobs, on the text's glob and the list of declaration globs. */
  function MatchesAny(textGlob: Glob, attributeGlobs: seq<Glob>): (r: bool)
    ensures r <==> exists i :: 0 <= i < |attributeGlobs| && GlobMatches(textGlob, attributeGlobs[i])
  {
    if attributeGlobs == [] then false
    else
      GlobMatches(textGlob, attributeGlobs[0]) || MatchesAny(textGlob, attributeGlobs[1..])
  }

  /** The `Where` filter of the pipeline. */
  predicate DoesAdditionalTextGlobMatchAnyAttributeGlobs(x: AdditionalTextAndGlobWithAttributeGlobs)
  {
    MatchesAny(x.additionalTextAndGlob.glob, x.attributeGlobs)
  }

  /** The fan-out of one text's content to every declaration whose glob the text matches, in
      declaration order. */
  function SelectMatching(content: AdditionalTextContent, textGlob: Glob, declarations: seq<AttributeAndGlob>)
    : (r: seq<AttributeAndAdditionalText>)
    ensures |r| <= |declarations|
    ensures forall i :: 0 <= i < |r| ==> r[i].1 == content
  {
    if declarations == [] then []
    else
      var d := declarations[0];
      (if GlobMatches(textGlob, d.glob) then [(d.attributeContext, content)] else [])
        + SelectMatching(content, textGlob, declarations[1..])
  }

  /** SelectMatchingTextAndAttribute. */
  function SelectMatchingTextAndAttribute(
    textAndFileData: AdditionalTextGlobsAndAdditionalTextContents, declarations: seq<AttributeAndGlob>)
    : (r: seq<AttributeAndAdditionalText>)
    ensures forall i :: 0 <= i < |r| ==> r[i].1 == textAndFileData.additionalTextContent
  {
    SelectMatching(textAndFileData.additionalTextContent, textAndFileData.fileAndGlobs.additionalTextAndGlob.glob, declarations)
  }

  // ---------------------------------------------------------------------
  // Search path, globs and the left join
  // ---------------------------------------------------------------------

  /** Whether a path argument is rooted at the project directory: it starts with `/` or `\`. */
  predicate IsProjectRooted(pathArg: string)
  {
    |pathArg| > 0 && (pathArg[0] == '/' || pathArg[0] == '\\')
  }

  /** The path GetAdditionalTextSearchPath combines: a rooted path argument, its first character
      dropped, relative to the project directory; any other relative to the directory of the
      declaring file (or "" when that has none). */
  function CombinedPath(paths: PathOps, data: AttributeData, options: GeneratorOptions): string
  {
    var pathArg := data.pathArg;
    var baseDir := if IsProjectRooted(pathArg) then options.projectDir else paths.directoryName(data.filePath).GetOr("");
    var relative := if IsProjectRooted(pathArg) then pathArg[1..] else pathArg;
    paths.combine(baseDir, relative)
  }

  /** GetAdditionalTextSearchPath: the full path of the combined path, or "" when it cannot be formed. */
  function SearchPath(paths: PathOps, data: AttributeData, options: GeneratorOptions): string
  {
    paths.fullPath(CombinedPath(paths, data, options)).GetOr("")
  }

  /** SelectAttributeAndOptions. */
  function SelectAttributeAndOptions(attributeContext: AttributeContext, options: GeneratorOptions): (r: AttributeAndOptions)
    ensures r.attributeContext == attributeContext && r.options == options
  {
    AttributeAndOptions(attributeContext, options)
  }

  /** The glob of a declaration: its resolved search path and its extension argument. */
  function DeclarationGlob(paths: PathOps, options: GeneratorOptions, c: AttributeContext): (r: Glob)
    ensures r.directory.Some?
    ensures r.extension == c.attributeData.extensionArg
  {
    Glob(Some(SearchPath(paths, c.attributeData, options)), c.attributeData.extensionArg)
  }

  /** SelectAttributesAndGlobs. */
  function SelectAttributesAndGlobs(paths: PathOps, ao: AttributeAndOptions): (r: AttributeAndGlob)
    ensures r.attributeContext == ao.attributeContext
    ensures r.glob == DeclarationGlob(paths, ao.options, ao.attributeContext)
  {
    var searchPath := SearchPath(paths, ao.attributeContext.attributeData, ao.options);
    AttributeAndGlob(ao.attributeContext, Glob(Some(searchPath), ao.attributeContext.attributeData.extensionArg))
  }

  /** The glob of a text: the directory and extension of its path. */
  function FileGlob(paths: PathOps, text: AdditionalText): Glob
  {
    Glob(paths.directoryName(text.path), paths.extension(text.path))
  }

  /** SelectFileInfo. */
  function SelectFileInfo(paths: PathOps, text: AdditionalText): (r: AdditionalTextAndGlob)
    ensures r.additionalText == text
    ensures r.glob == FileGlob(paths, text)
  {
    AdditionalTextAndGlob(text, Glob(paths.directoryName(text.path), paths.extension(text.path)))
  }

  /** ExtractAdditionalTextWithFileInfo: the text's content, next to the file and glob data it came with. */
  function ExtractAdditionalTextWithFileInfo(nl: string, x: AdditionalTextAndGlobWithAttributeGlobs)
    : (r: AdditionalTextGlobsAndAdditionalTextContents)
    ensures r.fileAndGlobs == x
    ensures r.additionalTextContent.path == x.additionalTextAndGlob.additionalText.path
  {
    AdditionalTextGlobsAndAdditionalTextContents(x, GenerateAdditionalTextContent(nl, x.additionalTextAndGlob.additionalText))
  }

  /** PerformAdditionalTextLookup: the left join of one declaration with the grouped contents. */
  function PerformAdditionalTextLookup(ao: AttributeAndOptions, lookup: map<AttributeContext, seq<AdditionalTextContent>>)
    : (r: AttributeOptionsAndAdditionalTexts)
    ensures r.context == ao.attributeContext && r.options == ao.options
    ensures ao.attributeContext in lookup ==> r.textContents == lookup[ao.attributeContext]
    ensures ao.attributeContext !in lookup ==> r.textContents == []
  {
    AttributeOptionsAndAdditionalTexts(ao.attributeContext, ao.options, Lookup(lookup, ao.attributeContext))
  }

  // ---------------------------------------------------------------------
  // The composed pipeline
  // ---------------------------------------------------------------------

  /** Every declaration with the build's options. */
  function AttributesAndOptions(decls: seq<AttributeContext>, options: GeneratorOptions): (r: seq<AttributeAndOptions>)
    ensures |r| == |decls|
    ensures forall i :: 0 <= i < |r| ==> r[i] == AttributeAndOptions(decls[i], options)
  {
    if decls == [] then [] else [SelectAttributeAndOptions(decls[0], options)] + AttributesAndOptions(decls[1..], options)
  }

  /** Every declaration with its glob. */
  function AttributesAndGlobs(paths: PathOps, aos: seq<AttributeAndOptions>): (r: seq<AttributeAndGlob>)
    ensures |r| == |aos|
    ensures forall i :: 0 <= i < |r| ==> r[i].attributeContext == aos[i].attributeContext
  {
    if aos == [] then [] else [SelectAttributesAndGlobs(paths, aos[0])] + AttributesAndGlobs(paths, aos[1..])
  }

  /** SelectJustGlobs over every declaration. */
  function AttributeGlobs(ags: seq<AttributeAndGlob>): (r: seq<Glob>)
    ensures |r| == |ags|
    ensures forall i :: 0 <= i < |r| ==> r[i] == ags[i].glob
  {
    seq(|ags|, i requires 0 <= i < |ags| => ags[i].glob)
  }

  /** One text through the pre-filter, content extraction and fan-out. */
  function MatchText(paths: PathOps, nl: string, ags: seq<AttributeAndGlob>, text: AdditionalText)
    : seq<AttributeAndAdditionalText>
  {
    var withGlobs := AdditionalTextAndGlobWithAttributeGlobs(SelectFileInfo(paths, text), AttributeGlobs(ags));
    if DoesAdditionalTextGlobMatchAnyAttributeGlobs(withGlobs) then
      SelectMatchingTextAndAttribute(ExtractAdditionalTextWithFileInfo(nl, withGlobs), ags)
    else []
  }

  /** Every text through the pre-filter and the fan-out, collected in text order. */
  function MatchTexts(paths: PathOps, nl: string, ags: seq<AttributeAndGlob>, texts: seq<AdditionalText>)
    : seq<AttributeAndAdditionalText>
  {
    if texts == [] then [] else MatchText(paths, nl, ags, texts[0]) + MatchTexts(paths, nl, ags, texts[1..])
  }

  /** The generator from declarations and additional texts to generation inputs. */
  function Run(paths: PathOps, nl: string, options: GeneratorOptions, decls: seq<AttributeContext>, texts: seq<AdditionalText>)
    : (r: seq<AttributeOptionsAndAdditionalTexts>)
    ensures |r| == |decls|
    ensures forall i :: 0 <= i < |r| ==> r[i].context == decls[i] && r[i].options == options
  {
    var aos := AttributesAndOptions(decls, options);
    var ags := AttributesAndGlobs(paths, aos);
    var lookup := GroupByKey(MatchTexts(paths, nl, ags, texts));
    seq(|aos|, i requires 0 <= i < |aos| => PerformAdditionalTextLookup(aos[i], lookup))
  }

  // ---------------------------------------------------------------------
  // Reference definitions
  // ---------------------------------------------------------------------

  /** How many of `declarations` carry context `c` and have a glob that `textGlob` matches. */
  function CountMatching(textGlob: Glob, declarations: seq<AttributeAndGlob>, c: AttributeContext): nat
  {
    if declarations == [] then 0
    else
      (if declarations[0].attributeContext == c && GlobMatches(textGlob, declarations[0].glob) then 1 else 0)
        + CountMatching(textGlob, declarations[1..], c)
  }

  /** How often `c` is declared. */
  function Occurrences(decls: seq<AttributeContext>, c: AttributeContext): nat
  {
    if decls == [] then 0 else (if decls[0] == c then 1 else 0) + Occurrences(decls[1..], c)
  }

  function Repeat<T>(x: T, n: nat): seq<T>
  {
    if n == 0 then [] else [x] + Repeat(x, n - 1)
  }

  /** The content of every text whose glob matches `g`, in text order, each `copies` times. */
  function MatchingContents(paths: PathOps, nl: string, g: Glob, texts: seq<AdditionalText>, copies: nat)
    : seq<AdditionalTextContent>
  {
    if texts == [] then []
    else
      (if GlobMatches(FileGlob(paths, texts[0]), g) then Repeat(GenerateAdditionalTextContent(nl, texts[0]), copies) else [])
        + MatchingContents(paths, nl, g, texts[1..], copies)
  }

  /** No context occurs twice. */
  predicate Distinct(decls: seq<AttributeContext>)
  {
    forall i, j :: 0 <= i < j < |decls| ==> decls[i] != decls[j]
  }

  // ---------------------------------------------------------------------
  // Properties of the match rule
  // ---------------------------------------------------------------------

  /** `.*` is a wildcard on the declaration side only: a declaration `.*` matches every extension
      in its directory, a text whose extension is `.*` matches only a declaration of `.*`. */
  lemma WildcardOnlyOnDeclarationSide(directory: Option<string>, extension: string)
    ensures GlobMatches(Glob(directory, extension), Glob(directory, AnyExtension))
    ensures GlobMatches(Glob(directory, AnyExtension), Glob(directory, extension)) <==> extension == AnyExtension
  {
  }

  /** Every glob matches itself. */
  lemma GlobMatchesItself(g: Glob)
    ensures GlobMatches(g, g)
  {
  }

  /** A text at a root path, whose directory is null, matches no declaration: a declaration's
      search path is always a string, possibly empty, never absent. */
  lemma TextAtRootMatchesNothing(paths: PathOps, options: GeneratorOptions, text: AdditionalText, c: AttributeContext)
    requires paths.directoryName(text.path).None?
    ensures !GlobMatches(FileGlob(paths, text), DeclarationGlob(paths, options, c))
  {
  }

  /** A bare file name has the directory "", which is also the search path of a declaration whose
      path could not be made absolute: such a declaration matches every bare file name with its
      extension. */
  lemma FailedSearchPathMatchesBareFile(paths: PathOps, options: GeneratorOptions, text: AdditionalText, c: AttributeContext)
    requires paths.fullPath(CombinedPath(paths, c.attributeData, options)).None?
    requires paths.directoryName(text.path) == Some("")
    requires c.attributeData.extensionArg == AnyExtension || paths.extension(text.path) == c.attributeData.extensionArg
    ensures GlobMatches(FileGlob(paths, text), DeclarationGlob(paths, options, c))
  {
  }

  // ---------------------------------------------------------------------
  // Properties of the fan-out
  // ---------------------------------------------------------------------

  /** The fan-out over a concatenation of declaration arrays is the concatenation of the
      fan-outs: declaration order is kept. */
  lemma {:induction false} SelectMatchingAppend(content: AdditionalTextContent, textGlob: Glob, a: seq<AttributeAndGlob>, b: seq<AttributeAndGlob>)
    ensures SelectMatching(content, textGlob, a + b) == SelectMatching(content, textGlob, a) + SelectMatching(content, textGlob, b)
    decreases |a|
  {
    if a == [] {
      assert a + b == b;
    } else {
      assert (a + b)[0] == a[0];
      assert (a + b)[1..] == a[1..] + b;
      SelectMatchingAppend(content, textGlob, a[1..], b);
      var h: seq<AttributeAndAdditionalText> := if GlobMatches(textGlob, a[0].glob) then [(a[0].attributeContext, content)] else [];
      Strings.AppendAssociative(h, SelectMatching(content, textGlob, a[1..]), SelectMatching(content, textGlob, b));
    }
  }

  /** One declaration yields one pair when its glob matches and none otherwise. */
  lemma SelectMatchingSingle(content: AdditionalTextContent, textGlob: Glob, d: AttributeAndGlob)
    ensures GlobMatches(textGlob, d.glob) ==> SelectMatching(content, textGlob, [d]) == [(d.attributeContext, content)]
    ensures !GlobMatches(textGlob, d.glob) ==> SelectMatching(content, textGlob, [d]) == []
  {
    assert [d][1..] == [];
  }

  /** A pair is produced for exactly the declarations whose glob matches. */
  lemma {:induction false} SelectMatchingMembers(content: AdditionalTextContent, textGlob: Glob, declarations: seq<AttributeAndGlob>, c: AttributeContext)
    ensures (c, content) in SelectMatching(content, textGlob, declarations)
        <==> exists j :: 0 <= j < |declarations| && declarations[j].attributeContext == c && GlobMatches(textGlob, declarations[j].glob)
  {
    if declarations != [] {
      SelectMatchingMembers(content, textGlob, declarations[1..], c);
      var rest := declarations[1..];
      if exists j :: 0 <= j < |rest| && rest[j].attributeContext == c && GlobMatches(textGlob, rest[j].glob) {
        var j :| 0 <= j < |rest| && rest[j].attributeContext == c && GlobMatches(textGlob, rest[j].glob);
        assert declarations[j + 1] == rest[j];
      }
      if exists j :: 0 <= j < |declarations| && declarations[j].attributeContext == c && GlobMatches(textGlob, declarations[j].glob) {
        var j :| 0 <= j < |declarations| && declarations[j].attributeContext == c && GlobMatches(textGlob, declarations[j].glob);
        if j > 0 {
          assert rest[j - 1] == declarations[j];
        }
      }
    }
  }

  /** The fan-out is empty exactly when no declaration glob matches. */
  lemma {:induction false} SelectMatchingEmpty(content: AdditionalTextContent, textGlob: Glob, declarations: seq<AttributeAndGlob>)
    ensures SelectMatching(content, textGlob, declarations) == []
        <==> forall j :: 0 <= j < |declarations| ==> !GlobMatches(textGlob, declarations[j].glob)
  {
    if declarations != [] {
      SelectMatchingEmpty(content, textGlob, declarations[1..]);
      var rest := declarations[1..];
      forall j | 0 < j < |declarations|
        ensures declarations[j] == rest[j - 1]
      {
      }
    }
  }

  /** The pre-filter is sound and complete: a text passes it exactly when its fan-out is non-empty,
      so filtering first loses no pair. */
  lemma PrefilterSound(content: AdditionalTextContent, textGlob: Glob, declarations: seq<AttributeAndGlob>)
    ensures MatchesAny(textGlob, AttributeGlobs(declarations)) <==> SelectMatching(content, textGlob, declarations) != []
  {
    SelectMatchingEmpty(content, textGlob, declarations);
  }

  /** The contents the fan-out files under one context: one copy per matching declaration of it. */
  lemma {:induction false} SelectMatchingValues(content: AdditionalTextContent, textGlob: Glob, declarations: seq<AttributeAndGlob>, c: AttributeContext)
    ensures ValuesFor(SelectMatching(content, textGlob, declarations), c) == Repeat(content, CountMatching(textGlob, declarations, c))
  {
    if declarations != [] {
      var d := declarations[0];
      var h: seq<AttributeAndAdditionalText> := if GlobMatches(textGlob, d.glob) then [(d.attributeContext, content)] else [];
      var rest := SelectMatching(content, textGlob, declarations[1..]);
      ValuesForAppend(h, rest, c);
      SelectMatchingValues(content, textGlob, declarations[1..], c);
      assert [(d.attributeContext, content)][1..] == [];
    }
  }

  // ---------------------------------------------------------------------
  // Properties of search-path resolution
  // ---------------------------------------------------------------------

  /** A rooted path argument is resolved against the project directory, without its first character. */
  lemma SearchPathRooted(paths: PathOps, data: AttributeData, options: GeneratorOptions)
    requires IsProjectRooted(data.pathArg)
    ensures var combined := paths.combine(options.projectDir, data.pathArg[1..]);
      SearchPath(paths, data, options) == (if paths.fullPath(combined).Some? then paths.fullPath(combined).value else "")
  {
  }

  /** Any other path argument is resolved against the declaring file's directory, or against ""
      when that file has none. */
  lemma SearchPathRelative(paths: PathOps, data: AttributeData, options: GeneratorOptions)
    requires !IsProjectRooted(data.pathArg)
    ensures var baseDir := if paths.directoryName(data.filePath).Some? then paths.directoryName(data.filePath).value else "";
      var combined := paths.combine(baseDir, data.pathArg);
      SearchPath(paths, data, options) == (if paths.fullPath(combined).Some? then paths.fullPath(combined).value else "")
  {
  }

  /** A rooted path argument does not depend on where the declaration is; any other path
      argument does not depend on the project directory. */
  lemma SearchPathDependencies(paths: PathOps, data: AttributeData, options: GeneratorOptions, filePath: string, projectDir: string)
    ensures IsProjectRooted(data.pathArg) ==>
      SearchPath(paths, data.(filePath := filePath), options) == SearchPath(paths, data, options)
    ensures !IsProjectRooted(data.pathArg) ==>
      SearchPath(paths, data, options.(projectDir := projectDir)) == SearchPath(paths, data, options)
  {
  }

  /** Resolution never fails: the search path is "" exactly when the combined path cannot be
      made absolute or its full path is itself "", and is that full path otherwise. */
  lemma SearchPathFailure(paths: PathOps, data: AttributeData, options: GeneratorOptions)
    ensures var full := paths.fullPath(CombinedPath(paths, data, options));
      && (full.None? ==> SearchPath(paths, data, options) == "")
      && (full.Some? ==> SearchPath(paths, data, options) == full.value)
      && (SearchPath(paths, data, options) == "" <==> full.None? || full.value == "")
  {
  }

  // ---------------------------------------------------------------------
  // Properties of the composed pipeline
  // ---------------------------------------------------------------------

  /** The pre-filter changes nothing: one text's pairs are its whole fan-out. */
  lemma MatchTextIsFanOut(paths: PathOps, nl: string, ags: seq<AttributeAndGlob>, text: AdditionalText)
    ensures MatchText(paths, nl, ags, text)
         == SelectMatching(GenerateAdditionalTextContent(nl, text), FileGlob(paths, text), ags)
  {
    PrefilterSound(GenerateAdditionalTextContent(nl, text), FileGlob(paths, text), ags);
  }

  /** The glob each declaration gets in the pipeline is its own. */
  lemma {:induction false} CountMatchingDeclarations(paths: PathOps, options: GeneratorOptions, decls: seq<AttributeContext>, textGlob: Glob, c: AttributeContext)
    ensures CountMatching(textGlob, AttributesAndGlobs(paths, AttributesAndOptions(decls, options)), c)
         == if GlobMatches(textGlob, DeclarationGlob(paths, options, c)) then Occurrences(decls, c) else 0
  {
    if decls != [] {
      var aos := AttributesAndOptions(decls, options);
      var ags := AttributesAndGlobs(paths, aos);
      assert aos[1..] == AttributesAndOptions(decls[1..], options);
      assert ags[1..] == AttributesAndGlobs(paths, aos[1..]);
      CountMatchingDeclarations(paths, options, decls[1..], textGlob, c);
    }
  }

  /** What the pipeline files under one context: each matching text's content, once per declaration of the context. */
  lemma {:induction false} MatchTextsValues(paths: PathOps, nl: string, options: GeneratorOptions, decls: seq<AttributeContext>, texts: seq<AdditionalText>, c: AttributeContext)
    ensures var ags := AttributesAndGlobs(paths, AttributesAndOptions(decls, options));
      ValuesFor(MatchTexts(paths, nl, ags, texts), c)
        == MatchingContents(paths, nl, DeclarationGlob(paths, options, c), texts, Occurrences(decls, c))
  {
    if texts != [] {
      var ags := AttributesAndGlobs(paths, AttributesAndOptions(decls, options));
      var t := texts[0];
      MatchTextIsFanOut(paths, nl, ags, t);
      ValuesForAppend(MatchText(paths, nl, ags, t), MatchTexts(paths, nl, ags, texts[1..]), c);
      SelectMatchingValues(GenerateAdditionalTextContent(nl, t), FileGlob(paths, t), ags, c);
      CountMatchingDeclarations(paths, options, decls, FileGlob(paths, t), c);
      MatchTextsValues(paths, nl, options, decls, texts[1..], c);
    }
  }

  /** Every declaration gets exactly one generation input, holding the content of every text its
      glob matches, in text order, once per declaration of the same context. */
  lemma RunContents(paths: PathOps, nl: string, options: GeneratorOptions, decls: seq<AttributeContext>, texts: seq<AdditionalText>, i: nat)
    requires i < |decls|
    ensures var r := Run(paths, nl, options, decls, texts);
      && |r| == |decls|
      && r[i] == AttributeOptionsAndAdditionalTexts(decls[i], options,
           MatchingContents(paths, nl, DeclarationGlob(paths, options, decls[i]), texts, Occurrences(decls, decls[i])))
  {
    var ags := AttributesAndGlobs(paths, AttributesAndOptions(decls, options));
    LookupGroupByKey(MatchTexts(paths, nl, ags, texts), decls[i]);
    MatchTextsValues(paths, nl, options, decls, texts, decls[i]);
  }

  lemma {:induction false} OccurrencesDistinct(decls: seq<AttributeContext>, i: nat)
    requires i < |decls| && Distinct(decls)
    ensures Occurrences(decls, decls[i]) == 1
  {
    if i == 0 {
      OccurrencesAbsent(decls[1..], decls[0]);
    } else {
      OccurrencesDistinct(decls[1..], i - 1);
    }
  }

  lemma {:induction false} OccurrencesAbsent(decls: seq<AttributeContext>, c: AttributeContext)
    requires c !in decls
    ensures Occurrences(decls, c) == 0
  {
    if decls != [] {
      OccurrencesAbsent(decls[1..], c);
    }
  }

  /** Each content once when no declaration is repeated: the contents of the matching texts, in text order. */
  lemma RunContentsDistinct(paths: PathOps, nl: string, options: GeneratorOptions, decls: seq<AttributeContext>, texts: seq<AdditionalText>, i: nat)
    requires i < |decls| && Distinct(decls)
    ensures Run(paths, nl, options, decls, texts)[i].textContents
         == MatchingContents(paths, nl, DeclarationGlob(paths, options, decls[i]), texts, 1)
  {
    RunContents(paths, nl, options, decls, texts, i);
    OccurrencesDistinct(decls, i);
  }

  /** The left join against the grouped pairs: the declaration gets the contents paired with its
      context, in order, and none exactly when its context was never paired. */
  lemma LeftJoinOfGroups(ao: AttributeAndOptions, pairs: seq<AttributeAndAdditionalText>)
    ensures var r := PerformAdditionalTextLookup(ao, GroupByKey(pairs));
      && r == AttributeOptionsAndAdditionalTexts(ao.attributeContext, ao.options, ValuesFor(pairs, ao.attributeContext))
      && (r.textContents == [] <==> ao.attributeContext !in KeysOf(pairs))
  {
    LookupGroupByKey(pairs, ao.attributeContext);
    ValuesForEmpty(pairs, ao.attributeContext);
  }

  /** A declaration's glob depends on its attribute arguments, never on the type they are on:
      two declarations with the same arguments, declared equally often, get the same contents. */
  lemma SameArgumentsSameContents(paths: PathOps, nl: string, options: GeneratorOptions, decls: seq<AttributeContext>,
                                  texts: seq<AdditionalText>, i: nat, j: nat)
    requires i < |decls| && j < |decls|
    requires decls[i].attributeData == decls[j].attributeData
    requires Occurrences(decls, decls[i]) == Occurrences(decls, decls[j])
    ensures Run(paths, nl, options, decls, texts)[i].textContents == Run(paths, nl, options, decls, texts)[j].textContents
  {
    RunContents(paths, nl, options, decls, texts, i);
    RunContents(paths, nl, options, decls, texts, j);
  }

  /** The fan-out picks its declarations by glob alone: two contents with the same glob are
      filed under the same contexts, in the same order. */
  lemma {:induction false} SelectMatchingContexts(c1: AdditionalTextContent, c2: AdditionalTextContent, textGlob: Glob, declarations: seq<AttributeAndGlob>)
    ensures var r1 := SelectMatching(c1, textGlob, declarations);
      var r2 := SelectMatching(c2, textGlob, declarations);
      |r1| == |r2| && forall k :: 0 <= k < |r1| ==> r1[k].0 == r2[k].0
  {
    if declarations != [] {
      SelectMatchingContexts(c1, c2, textGlob, declarations[1..]);
    }
  }

  /** SelectFileInfo reads the path only: two texts at the same path, whatever their contents,
      are matched with the same declarations, in the same order. */
  lemma SamePathSameMatches(paths: PathOps, nl: string, ags: seq<AttributeAndGlob>, t1: AdditionalText, t2: AdditionalText)
    requires t1.path == t2.path
    ensures var r1 := MatchText(paths, nl, ags, t1);
      var r2 := MatchText(paths, nl, ags, t2);
      |r1| == |r2| && forall k :: 0 <= k < |r1| ==> r1[k].0 == r2[k].0
  {
    MatchTextIsFanOut(paths, nl, ags, t1);
    MatchTextIsFanOut(paths, nl, ags, t2);
    SelectMatchingContexts(GenerateAdditionalTextContent(nl, t1), GenerateAdditionalTextContent(nl, t2), FileGlob(paths, t1), ags);
  }

  /** Two types of the same name, with the same arguments, in different namespaces or enclosing
      types: each is its own key, so each gets the content of every matching text once. */
  lemma SameNameElsewhereIsDistinct(paths: PathOps, nl: string, options: GeneratorOptions,
                                    c1: AttributeContext, c2: AttributeContext, texts: seq<AdditionalText>, i: nat)
    requires c1.containing != c2.containing && i < 2
    ensures Run(paths, nl, options, [c1, c2], texts)[i].textContents
         == MatchingContents(paths, nl, DeclarationGlob(paths, options, [c1, c2][i]), texts, 1)
  {
    RunContentsDistinct(paths, nl, options, [c1, c2], texts, i);
  }

  /** A declaration that nothing matches still gets its generation input, with no contents. */
  lemma {:induction false} NothingMatchedIsEmpty(paths: PathOps, nl: string, g: Glob, texts: seq<AdditionalText>, copies: nat)
    requires forall k :: 0 <= k < |texts| ==> !GlobMatches(FileGlob(paths, texts[k]), g)
    ensures MatchingContents(paths, nl, g, texts, copies) == []
  {
    if texts != [] {
      NothingMatchedIsEmpty(paths, nl, g, texts[1..], copies);
    }
  }

  lemma {:induction false} MatchingContentsAppend(paths: PathOps, nl: string, g: Glob, a: seq<AdditionalText>, b: seq<AdditionalText>, copies: nat)
    ensures MatchingContents(paths, nl, g, a + b, copies)
         == MatchingContents(paths, nl, g, a, copies) + MatchingContents(paths, nl, g, b, copies)
  {
    if a == [] {
      assert a + b == b;
    } else {
      assert (a + b)[0] == a[0];
      assert (a + b)[1..] == a[1..] + b;
      MatchingContentsAppend(paths, nl, g, a[1..], b, copies);
      var h := if GlobMatches(FileGlob(paths, a[0]), g) then Repeat(GenerateAdditionalTextContent(nl, a[0]), copies) else [];
      Strings.AppendAssociative(h, MatchingContents(paths, nl, g, a[1..], copies), MatchingContents(paths, nl, g, b, copies));
    }
  }

  /** Locality: adding or removing a text that does not match a declaration's glob, anywhere,
      leaves that declaration's generation input as it was. */
  lemma RunIgnoresUnmatchedText(paths: PathOps, nl: string, options: GeneratorOptions, decls: seq<AttributeContext>,
                                a: seq<AdditionalText>, t: AdditionalText, b: seq<AdditionalText>, i: nat)
    requires i < |decls|
    requires !GlobMatches(FileGlob(paths, t), DeclarationGlob(paths, options, decls[i]))
    ensures Run(paths, nl, options, decls, a + [t] + b)[i] == Run(paths, nl, options, decls, a + b)[i]
  {
    var g := DeclarationGlob(paths, options, decls[i]);
    var n := Occurrences(decls, decls[i]);
    RunContents(paths, nl, options, decls, a + [t] + b, i);
    RunContents(paths, nl, options, decls, a + b, i);
    MatchingContentsSkip(paths, nl, g, a, t, b, n);
  }

  /** A text that does not match contributes nothing, wherever it stands. */
  lemma MatchingContentsSkip(paths: PathOps, nl: string, g: Glob, a: seq<AdditionalText>, t: AdditionalText, b: seq<AdditionalText>, copies: nat)
    requires !GlobMatches(FileGlob(paths, t), g)
    ensures MatchingContents(paths, nl, g, a + [t] + b, copies) == MatchingContents(paths, nl, g, a + b, copies)
  {
    MatchingContentsAppend(paths, nl, g, a + [t], b, copies);
    MatchingContentsAppend(paths, nl, g, a, [t], copies);
    MatchingContentsAppend(paths, nl, g, a, b, copies);
    assert MatchingContents(paths, nl, g, [t], copies) == [] by {
      assert [t][1..] == [];
    }
  }

  /** Locality: replacing one text by another, neither of which matches a declaration's glob,
      leaves that declaration's generation input as it was. */
  lemma RunIgnoresUnmatchedChange(paths: PathOps, nl: string, options: GeneratorOptions, decls: seq<AttributeContext>,
                                  a: seq<AdditionalText>, t1: AdditionalText, t2: AdditionalText, b: seq<AdditionalText>, i: nat)
    requires i < |decls|
    requires !GlobMatches(FileGlob(paths, t1), DeclarationGlob(paths, options, decls[i]))
    requires !GlobMatches(FileGlob(paths, t2), DeclarationGlob(paths, options, decls[i]))
    ensures Run(paths, nl, options, decls, a + [t1] + b)[i] == Run(paths, nl, options, decls, a + [t2] + b)[i]
  {
    RunIgnoresUnmatchedText(paths, nl, options, decls, a, t1, b, i);
    RunIgnoresUnmatchedText(paths, nl, options, decls, a, t2, b, i);
  }

  lemma {:induction false} OccurrencesAppend(a: seq<AttributeContext>, b: seq<AttributeContext>, c: AttributeContext)
    ensures Occurrences(a + b, c) == Occurrences(a, c) + Occurrences(b, c)
  {
    if a == [] {
      assert a + b == b;
    } else {
      assert (a + b)[0] == a[0];
      assert (a + b)[1..] == a[1..] + b;
      OccurrencesAppend(a[1..], b, c);
    }
  }

  /** Locality: a declaration's generation input depends on its own context and how often that
      is declared, not on the other declarations or on where it stands among them. Declaring other
      types, before or after it, leaves its input as it was. */
  lemma RunIgnoresOtherDeclarations(paths: PathOps, nl: string, options: GeneratorOptions,
                                    d1: seq<AttributeContext>, d2: seq<AttributeContext>, texts: seq<AdditionalText>, i: nat, j: nat)
    requires i < |d1| && j < |d2| && d1[i] == d2[j]
    requires Occurrences(d1, d1[i]) == Occurrences(d2, d2[j])
    ensures Run(paths, nl, options, d1, texts)[i] == Run(paths, nl, options, d2, texts)[j]
  {
    RunContents(paths, nl, options, d1, texts, i);
    RunContents(paths, nl, options, d2, texts, j);
  }

  /** Inserting declarations of other types anywhere leaves a declaration's input as it was. */
  lemma RunIgnoresInsertedDeclarations(paths: PathOps, nl: string, options: GeneratorOptions,
                                       a: seq<AttributeContext>, more: seq<AttributeContext>, b: seq<AttributeContext>,
                                       texts: seq<AdditionalText>, i: nat)
    requires i < |a + b| && (a + b)[i] !in more
    ensures var j := if i < |a| then i else i + |more|;
      j < |a + more + b| && Run(paths, nl, options, a + more + b, texts)[j] == Run(paths, nl, options, a + b, texts)[i]
  {
    var c := (a + b)[i];
    var j := if i < |a| then i else i + |more|;
    assert (a + more + b)[j] == c;
    OccurrencesAppend(a + more, b, c);
    OccurrencesAppend(a, more, c);
    OccurrencesAppend(a, b, c);
    OccurrencesAbsent(more, c);
    RunIgnoresOtherDeclarations(paths, nl, options, a + more + b, a + b, texts, j, i);
  }
}
