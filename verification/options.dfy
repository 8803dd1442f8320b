/**
 GeneratorOptions: the three build properties the generator reads from the
 global analyzer configuration, each with its default.
 */
module Options {

  datatype GeneratorOptions = GeneratorOptions(isDesignTimeBuild: bool, projectDir: string, rootNamespace: string)

  const DesignTimeBuildKey: string := "build_property.DesignTimeBuild"
  const ProjectDirKey: string := "build_property.ProjectDir"
  const RootNamespaceKey: string := "build_property.RootNamespace"

  /** Case folding for ASCII letters. */
  function FoldCase(c: char): char
  {
    if 'A' <= c <= 'Z' then (c as int + 32) as char else c
  }

  /** StringComparer.OrdinalIgnoreCase.Equals, with ASCII case folding. */
  predicate EqualsIgnoreCase(a: string, b: string)
  {
    |a| == |b| && forall i :: 0 <= i < |a| ==> FoldCase(a[i]) == FoldCase(b[i])
  }

  /** The value of `key`, or the empty string when the key is absent. */
  function ValueOrEmpty(config: map<string, string>, key: string): (r: string)
    ensures key in config ==> r == config[key]
    ensures key !in config ==> r == ""
  {
    if key in config then config[key] else ""
  }

  /** The options of a build, from its global analyzer configuration. */
  function FromConfig(config: map<string, string>): (r: GeneratorOptions)
    ensures DesignTimeBuildKey !in config ==> !r.isDesignTimeBuild
    ensures ProjectDirKey in config ==> r.projectDir == config[ProjectDirKey]
    ensures ProjectDirKey !in config ==> r.projectDir == ""
    ensures RootNamespaceKey in config ==> r.rootNamespace == config[RootNamespaceKey]
    ensures RootNamespaceKey !in config ==> r.rootNamespace == ""
  {
    GeneratorOptions(
      DesignTimeBuildKey in config && EqualsIgnoreCase("true", config[DesignTimeBuildKey]),
      ValueOrEmpty(config, ProjectDirKey),
      ValueOrEmpty(config, RootNamespaceKey))
  }

  /** The spellings of `true` that switch design-time mode on: four letters, each in either case. */
  predicate IsTrueSpelling(v: string)
  {
    && |v| == 4
    && (v[0] == 't' || v[0] == 'T')
    && (v[1] == 'r' || v[1] == 'R')
    && (v[2] == 'u' || v[2] == 'U')
    && (v[3] == 'e' || v[3] == 'E')
  }

  lemma FoldCaseLetter(c: char, lower: char)
    requires 'a' <= lower <= 'z'
    ensures FoldCase(c) == lower <==> c == lower || c as int == lower as int - 32
  {
  }

  /** Design-time mode is on exactly when the property is present and spells `true` in any case. */
  lemma DesignTimeBuildSpellings(config: map<string, string>)
    ensures FromConfig(config).isDesignTimeBuild
        <==> DesignTimeBuildKey in config && IsTrueSpelling(config[DesignTimeBuildKey])
  {
    if DesignTimeBuildKey in config {
      var v := config[DesignTimeBuildKey];
      if |v| == 4 {
        FoldCaseLetter(v[0], 't');
        FoldCaseLetter(v[1], 'r');
        FoldCaseLetter(v[2], 'u');
        FoldCaseLetter(v[3], 'e');
        assert EqualsIgnoreCase("true", v) <==>
          FoldCase(v[0]) == 't' && FoldCase(v[1]) == 'r' && FoldCase(v[2]) == 'u' && FoldCase(v[3]) == 'e';
      }
    }
  }

  /** A key the analyzer configuration would take for one of the three: its lookups ignore case. */
  predicate IsOptionKey(key: string)
  {
    || EqualsIgnoreCase(key, DesignTimeBuildKey)
    || EqualsIgnoreCase(key, ProjectDirKey)
    || EqualsIgnoreCase(key, RootNamespaceKey)
  }

  /** Any other property, added, changed or removed, leaves the options as they were. */
  lemma OtherKeysChangeNothing(config: map<string, string>, key: string, value: string)
    requires !IsOptionKey(key)
    ensures FromConfig(config[key := value]) == FromConfig(config)
    ensures FromConfig(config - {key}) == FromConfig(config)
  {
    var added := config[key := value];
    var removed := config - {key};
    assert DesignTimeBuildKey in added <==> DesignTimeBuildKey in config;
    assert DesignTimeBuildKey in removed <==> DesignTimeBuildKey in config;
  }

  /** Each option reads its own property only: two configurations that agree on that property
      give the same value for it, whatever else they hold. */
  lemma EachOptionReadsOneKey(c1: map<string, string>, c2: map<string, string>)
    ensures (DesignTimeBuildKey in c1 <==> DesignTimeBuildKey in c2)
         && (DesignTimeBuildKey in c1 ==> c1[DesignTimeBuildKey] == c2[DesignTimeBuildKey])
         ==> FromConfig(c1).isDesignTimeBuild == FromConfig(c2).isDesignTimeBuild
    ensures (ProjectDirKey in c1 <==> ProjectDirKey in c2)
         && (ProjectDirKey in c1 ==> c1[ProjectDirKey] == c2[ProjectDirKey])
         ==> FromConfig(c1).projectDir == FromConfig(c2).projectDir
    ensures (RootNamespaceKey in c1 <==> RootNamespaceKey in c2)
         && (RootNamespaceKey in c1 ==> c1[RootNamespaceKey] == c2[RootNamespaceKey])
         ==> FromConfig(c1).rootNamespace == FromConfig(c2).rootNamespace
  {
  }
}
