/**
 The identifier mangler (NameGenerators): turns the file name of an additional
 text into the name of a string constant. Characters that may appear in a C#
 identifier are kept; the others are spelled out between underscores, by name
 for common punctuation and as `u<hex code point>` otherwise; consecutive
 replacements share one underscore.
 */
module NameGenerators {
  import opened Wrappers
  import opened Strings
  import opened Unicode
  import opened Paths

  /** The characters replaced by a name rather than by their code point (the CharacterNames table). */
  function CharacterName(c: char): Option<string>
  {
    match c
    case '.' => Some("dot")
    case '-' => Some("minus")
    case '+' => Some("plus")
    case '*' => Some("times")
    case '/' => Some("slash")
    case '%' => Some("pct")
    case '<' => Some("lt")
    case '>' => Some("gt")
    case '=' => Some("eq")
    case '&' => Some("amp")
    case '|' => Some("pipe")
    case '^' => Some("hat")
    case '!' => Some("excl")
    case '?' => Some("quest")
    case ':' => Some("colon")
    case ',' => Some("comma")
    case ';' => Some("semi")
    case '~' => Some("tilde")
    case '`' => Some("grave")
    case '@' => Some("at")
    case '#' => Some("hash")
    case '$' => Some("dollar")
    case '\\' => Some("backslash")
    case '\'' => Some("apos")
    case '"' => Some("quot")
    case '[' => Some("start")
    case ']' => Some("end")
    case '{' => Some("begin")
    case '}' => Some("finish")
    case '(' => Some("open")
    case ')' => Some("close")
    case ' ' => Some("space")
    case '\t' => Some("tab")
    case '\r' => Some("CR")
    case '\n' => Some("LF")
    case _ => None
  }

  /** The categories that may continue a C# identifier. */
  predicate IsValidCategory(k: Category)
  {
    || IsLetterCategory(k)
    || k.LetterNumber? || k.DecimalDigitNumber? || k.ConnectorPunctuation?
    || k.NonSpacingMark? || k.SpacingCombiningMark? || k.Format?
  }

  /** A character that may stand anywhere in the constant's name (ValidCharacterForStringConstantName). */
  predicate ValidCharacter(t: CharTables, c: char)
  {
    IsValidCategory(CategoryOf(t, c))
  }

  /** A character that may start the constant's name (ValidFirstCharacterForStringConstantName). */
  predicate ValidFirstCharacter(t: CharTables, c: char)
  {
    c == '_' || IsLetter(t, c)
  }

  /** The text that stands for an invalid character, between its underscores. For a code point
      above U+FFFF this is the code point of the whole surrogate pair. */
  function EscapeName(c: char): string
  {
    match CharacterName(c)
    case Some(name) => name
    case None => "u" + NatToString(c as int, 16)
  }

  predicate AllValid(t: CharTables, s: string)
  {
    forall i :: 0 <= i < |s| ==> ValidCharacter(t, s[i])
  }

  /** What the loop of ConvertToStringConstantName needs to know about characters: which are
      kept, and what an invalid one is spelled as. */
  datatype Escaping = Escaping(valid: char -> bool, name: char -> string)

  /** The generator's escaping under the character tables `t`. */
  function Mangler(t: CharTables): Escaping
  {
    Escaping(c => ValidCharacter(t, c), EscapeName)
  }

  /** One step of the loop of ConvertToStringConstantName: a valid character is kept; an invalid
      one becomes its name and `_`, preceded by `_` unless the character before was replaced too. */
  function EscapeOne(e: Escaping, c: char, previousEscaped: bool): (r: string)
    ensures |r| > 0
  {
    if e.valid(c) then [c]
    else (if previousEscaped then "" else "_") + e.name(c) + "_"
  }

  /** The loop of ConvertToStringConstantName over `s`: `previousEscaped` says whether the
      character before `s` was replaced. Every character gives at least one. */
  function EscapeCharacters(e: Escaping, s: string, previousEscaped: bool): (r: string)
    ensures |r| >= |s|
  {
    if s == [] then ""
    else EscapeOne(e, s[0], previousEscaped) + EscapeCharacters(e, s[1..], !e.valid(s[0]))
  }

  /** ConvertToStringConstantName: escape, put `_` in front of a name that cannot start an
      identifier, upper-case the first character. Nothing after the first character is touched. */
  function ConvertToStringConstantName(t: CharTables, filename: string): (r: string)
    ensures |r| == 0 <==> |filename| == 0
    ensures var escaped := EscapeCharacters(Mangler(t), filename, false);
      |escaped| > 0 ==>
        if ValidFirstCharacter(t, escaped[0]) then r[0] == t.upper(escaped[0]) && r[1..] == escaped[1..]
        else r[0] == t.upper('_') && r[1..] == escaped
  {
    var escaped := EscapeCharacters(Mangler(t), filename, false);
    var named := if |escaped| > 0 && !ValidFirstCharacter(t, escaped[0]) then "_" + escaped else escaped;
    if |named| > 0 then [t.upper(named[0])] + named[1..] else named
  }

  /** GetStringConstantName: the mangled file name without its extension, unless that is empty
      or is the name of the enclosing type; then the mangled file name with its extension,
      whatever it is. */
  function GetStringConstantName(paths: PathOps, t: CharTables, filePath: string, enclosingTypeName: string): (r: string)
    ensures var stem := ConvertToStringConstantName(t, paths.fileNameWithoutExtension(filePath));
            var full := ConvertToStringConstantName(t, paths.fileName(filePath));
      && (|stem| > 0 && stem != enclosingTypeName ==> r == stem)
      && (|stem| == 0 || stem == enclosingTypeName ==> r == full)
      && (r == enclosingTypeName ==> full == enclosingTypeName)
  {
    var stringConstantName := ConvertToStringConstantName(t, paths.fileNameWithoutExtension(filePath));
    if |stringConstantName| == 0 || enclosingTypeName == stringConstantName then
      ConvertToStringConstantName(t, paths.fileName(filePath))
    else stringConstantName
  }

  // ---------------------------------------------------------------------
  // Character facts
  // ---------------------------------------------------------------------

  predicate IsAsciiAlphanumeric(c: char)
  {
    'a' <= c <= 'z' || 'A' <= c <= 'Z' || '0' <= c <= '9'
  }

  predicate AllAsciiAlphanumeric(s: string)
  {
    forall i :: 0 <= i < |s| ==> IsAsciiAlphanumeric(s[i])
  }

  lemma AlphanumericIsValid(t: CharTables, s: string)
    requires AllAsciiAlphanumeric(s)
    ensures AllValid(t, s)
    ensures |s| > 0 && !('0' <= s[0] <= '9') ==> IsLetter(t, s[0])
  {
  }

  /** A name of the table: ASCII letters and digits, starting with a letter. */
  predicate IsWord(name: string)
  {
    |name| > 0 && AllAsciiAlphanumeric(name) && !('0' <= name[0] <= '9')
  }

  lemma ArithmeticNamesAreWords(c: char)
    requires c in ".-+*/%"
    ensures CharacterName(c).Some? && IsWord(CharacterName(c).value)
  {
  }

  lemma OperatorNamesAreWords(c: char)
    requires c in "<>=&|^!"
    ensures CharacterName(c).Some? && IsWord(CharacterName(c).value)
  {
  }

  lemma PunctuationNamesAreWords(c: char)
    requires c in "?:,;~`"
    ensures CharacterName(c).Some? && IsWord(CharacterName(c).value)
  {
  }

  lemma SymbolNamesAreWords(c: char)
    requires c in "@#$\\'\""
    ensures CharacterName(c).Some? && IsWord(CharacterName(c).value)
  {
  }

  lemma BracketNamesAreWords(c: char)
    requires c in "[]{}()"
    ensures CharacterName(c).Some? && IsWord(CharacterName(c).value)
  {
  }

  lemma WhitespaceNamesAreWords(c: char)
    requires c in " \t\r\n"
    ensures CharacterName(c).Some? && IsWord(CharacterName(c).value)
  {
  }

  /** Every name in the table is spelled with ASCII letters. */
  lemma CharacterNameIsAlphanumeric(c: char)
    requires CharacterName(c).Some?
    ensures IsWord(CharacterName(c).value)
  {
    if c in ".-+*/%" {
      ArithmeticNamesAreWords(c);
    } else if c in "<>=&|^!" {
      OperatorNamesAreWords(c);
    } else if c in "?:,;~`" {
      PunctuationNamesAreWords(c);
    } else if c in "@#$\\'\"" {
      SymbolNamesAreWords(c);
    } else if c in "[]{}()" {
      BracketNamesAreWords(c);
    } else {
      WhitespaceNamesAreWords(c);
    }
  }

  /** Every replacement is spelled with ASCII letters and digits and starts with a letter. */
  lemma EscapeNameIsAlphanumeric(c: char)
    ensures |EscapeName(c)| > 0
    ensures AllAsciiAlphanumeric(EscapeName(c))
    ensures !('0' <= EscapeName(c)[0] <= '9')
  {
    if CharacterName(c).Some? {
      CharacterNameIsAlphanumeric(c);
    } else {
      var hex := NatToString(c as int, 16);
      assert forall i :: 0 <= i < |hex| ==> hex[i] in DigitChars;
      assert EscapeName(c) == "u" + hex;
    }
  }

  /** A replacement is made of valid characters, and it starts with `_`, or, when it shares the
      underscore of the replacement before it, with a letter. */
  lemma EscapeOneIsValid(t: CharTables, c: char, previousEscaped: bool)
    ensures var r := EscapeOne(Mangler(t), c, previousEscaped);
      && AllValid(t, r)
      && (ValidCharacter(t, c) ==> r == [c])
      && (!ValidCharacter(t, c) && !previousEscaped ==> r[0] == '_')
      && (!ValidCharacter(t, c) && previousEscaped ==> IsLetter(t, r[0]))
  {
    if !ValidCharacter(t, c) {
      var name := EscapeName(c);
      EscapeNameIsAlphanumeric(c);
      AlphanumericIsValid(t, name);
      assert ValidCharacter(t, '_');
    }
  }

  /** The escaped name is made of characters that may appear in an identifier. */
  lemma {:induction false} EscapeCharactersIsValid(t: CharTables, s: string, previousEscaped: bool)
    ensures AllValid(t, EscapeCharacters(Mangler(t), s, previousEscaped))
  {
    if s != [] {
      EscapeOneIsValid(t, s[0], previousEscaped);
      EscapeCharactersIsValid(t, s[1..], !ValidCharacter(t, s[0]));
    }
  }

  // ---------------------------------------------------------------------
  // Properties
  // ---------------------------------------------------------------------

  /** Whether the last character of `s` was replaced, given whether the one before `s` was. */
  function EscapedAfter(e: Escaping, s: string, previousEscaped: bool): bool
  {
    if s == [] then previousEscaped else !e.valid(s[|s| - 1])
  }

  /** One turn of the loop: the first character's replacement, then the rest, which starts
      out knowing whether that character was replaced. */
  lemma EscapeCharactersStep(e: Escaping, s: string, previousEscaped: bool)
    requires |s| > 0
    ensures EscapeCharacters(e, s, previousEscaped)
         == EscapeOne(e, s[0], previousEscaped) + EscapeCharacters(e, s[1..], !e.valid(s[0]))
    ensures EscapedAfter(e, s[1..], !e.valid(s[0])) == EscapedAfter(e, s, previousEscaped)
  {
    if |s| > 1 {
      assert s[1..][|s[1..]| - 1] == s[|s| - 1];
    }
  }

  /** The mangling is a left-to-right scan: each part of the name is mangled on its own, and
      the only thing carried across is whether the character before was replaced. */
  lemma {:induction false} EscapeCharactersAppend(e: Escaping, a: string, b: string, previousEscaped: bool)
    ensures EscapeCharacters(e, a + b, previousEscaped)
         == EscapeCharacters(e, a, previousEscaped) + EscapeCharacters(e, b, EscapedAfter(e, a, previousEscaped))
  {
    if a == [] {
      assert a + b == b;
    } else {
      var flag := !e.valid(a[0]);
      var head := EscapeOne(e, a[0], previousEscaped);
      assert (a + b)[0] == a[0];
      assert (a + b)[1..] == a[1..] + b;
      EscapeCharactersStep(e, a + b, previousEscaped);
      EscapeCharactersStep(e, a, previousEscaped);
      EscapeCharactersAppend(e, a[1..], b, flag);
      AppendAssociative(head, EscapeCharacters(e, a[1..], flag), EscapeCharacters(e, b, EscapedAfter(e, a, previousEscaped)));
    }
  }

  /** One invalid character: its name between underscores, the first one dropped when the
      character before was replaced too; the name is its entry in the table, or `u` and the
      hexadecimal code point, which can be read back. */
  lemma EscapeInvalidCharacter(t: CharTables, c: char, previousEscaped: bool)
    requires !ValidCharacter(t, c)
    ensures EscapeCharacters(Mangler(t), [c], previousEscaped)
         == (if previousEscaped then "" else "_") + EscapeName(c) + "_"
    ensures CharacterName(c).Some? ==> EscapeName(c) == CharacterName(c).value
    ensures CharacterName(c).None? ==>
      && EscapeName(c)[0] == 'u'
      && ParseNat(EscapeName(c)[1..], 16) == c as int
  {
    assert [c][1..] == [];
    if CharacterName(c).None? {
      assert EscapeName(c)[1..] == NatToString(c as int, 16);
      ParseNatToString(c as int, 16);
    }
  }

  /** The table characters are never valid, so each of them is always replaced by its name. */
  lemma TableCharactersAreInvalid(t: CharTables, c: char)
    requires CharacterName(c).Some?
    ensures !ValidCharacter(t, c)
  {
  }

  /** A code point above U+FFFF (a surrogate pair in .NET) is replaced as one unit, by its
      full code point, whatever its category. */
  lemma SupplementaryCharacterIsOneEscape(t: CharTables, c: char, previousEscaped: bool)
    requires c as int >= 0x1_0000
    ensures EscapeCharacters(Mangler(t), [c], previousEscaped)
         == (if previousEscaped then "" else "_") + "u" + NatToString(c as int, 16) + "_"
  {
    var hex := NatToString(c as int, 16);
    assert CategoryOf(t, c) == Surrogate;
    assert CharacterName(c) == None;
    assert EscapeName(c) == "u" + hex;
    EscapeInvalidCharacter(t, c, previousEscaped);
    AppendAssociative(if previousEscaped then "" else "_", "u", hex);
  }

  /** A string of valid characters is its own escape. */
  lemma {:induction false} EscapeAllValid(t: CharTables, s: string, previousEscaped: bool)
    requires AllValid(t, s)
    ensures EscapeCharacters(Mangler(t), s, previousEscaped) == s
  {
    if s != [] {
      EscapeAllValid(t, s[1..], false);
      assert s == [s[0]] + s[1..];
    }
  }

  /** A name of valid characters that may start an identifier only has its first character
      upper-cased. */
  lemma ConvertValidName(t: CharTables, s: string)
    requires |s| > 0 && AllValid(t, s) && ValidFirstCharacter(t, s[0])
    ensures ConvertToStringConstantName(t, s) == [t.upper(s[0])] + s[1..]
  {
    EscapeAllValid(t, s, false);
  }

  /** A name of valid characters that cannot start an identifier, such as one with a leading
      digit, gets an underscore in front, and the underscore is what gets upper-cased. */
  lemma ConvertLeadingDigit(t: CharTables, s: string)
    requires |s| > 0 && AllValid(t, s) && !ValidFirstCharacter(t, s[0])
    ensures ConvertToStringConstantName(t, s) == [t.upper('_')] + s
  {
    EscapeAllValid(t, s, false);
    assert ("_" + s)[1..] == s;
  }

  /** A name starting with an invalid character starts with that replacement's underscore; no
      second underscore is added. */
  lemma ConvertInvalidHead(t: CharTables, s: string)
    requires |s| > 0 && !ValidCharacter(t, s[0])
    ensures ConvertToStringConstantName(t, s)
         == [t.upper('_')] + EscapeName(s[0]) + "_" + EscapeCharacters(Mangler(t), s[1..], true)
  {
    var m := Mangler(t);
    var n := EscapeName(s[0]);
    var rest := EscapeCharacters(m, s[1..], true);
    var e := EscapeCharacters(m, s, false);
    EscapeCharactersStep(m, s, false);
    assert EscapeOne(m, s[0], false) == "_" + n + "_";
    AppendAssociative("_", n, "_");
    AppendAssociative("_", n + "_", rest);
    assert e == "_" + ((n + "_") + rest);
    assert e[1..] == (n + "_") + rest;
    AppendAssociative([t.upper('_')], n, "_");
    AppendAssociative([t.upper('_')], n + "_", rest);
  }

  /** With a culture whose upper-casing keeps letters letters, the constant name is a C#
      identifier: it starts with `_` or a letter and continues with valid characters. */
  lemma ConvertIsIdentifier(t: CharTables, s: string)
    requires WellFormed(t)
    ensures var r := ConvertToStringConstantName(t, s);
      |r| > 0 ==> ValidFirstCharacter(t, r[0]) && AllValid(t, r)
  {
    var escaped := EscapeCharacters(Mangler(t), s, false);
    EscapeCharactersIsValid(t, s, false);
    var named := if |escaped| > 0 && !ValidFirstCharacter(t, escaped[0]) then "_" + escaped else escaped;
    if |named| > 0 {
      assert ValidCharacter(t, '_');
      assert UpperBehavesAt(t, named[0]);
    }
  }

  /** Mangling a mangled name changes nothing. */
  lemma ConvertIdempotent(t: CharTables, s: string)
    requires WellFormed(t)
    ensures ConvertToStringConstantName(t, ConvertToStringConstantName(t, s)) == ConvertToStringConstantName(t, s)
  {
    var r := ConvertToStringConstantName(t, s);
    if |r| > 0 {
      ConvertIsIdentifier(t, s);
      var escaped := EscapeCharacters(Mangler(t), s, false);
      var named := if |escaped| > 0 && !ValidFirstCharacter(t, escaped[0]) then "_" + escaped else escaped;
      assert UpperBehavesAt(t, named[0]);
      assert t.upper(r[0]) == r[0];
      ConvertValidName(t, r);
      assert r == [r[0]] + r[1..];
    }
  }

  /** The constant's name, from the stem or from the fallback, is a C# identifier; it is empty
      only when the name it was taken from is. */
  lemma GetStringConstantNameIsIdentifier(paths: PathOps, t: CharTables, filePath: string, enclosingTypeName: string)
    requires WellFormed(t)
    ensures var r := GetStringConstantName(paths, t, filePath, enclosingTypeName);
      && (|r| > 0 ==> ValidFirstCharacter(t, r[0]) && AllValid(t, r))
      && (|r| == 0 <==>
            (|paths.fileNameWithoutExtension(filePath)| == 0
               || ConvertToStringConstantName(t, paths.fileNameWithoutExtension(filePath)) == enclosingTypeName)
            && |paths.fileName(filePath)| == 0)
  {
    ConvertIsIdentifier(t, paths.fileNameWithoutExtension(filePath));
    ConvertIsIdentifier(t, paths.fileName(filePath));
  }

  /** Mangling a name that starts with a valid character and goes on with `rest`. */
  lemma EscapeValidCons(t: CharTables, c: char, rest: string, previousEscaped: bool)
    requires ValidCharacter(t, c)
    ensures EscapeCharacters(Mangler(t), [c] + rest, previousEscaped) == [c] + EscapeCharacters(Mangler(t), rest, false)
  {
    assert ([c] + rest)[1..] == rest;
  }

  lemma EscapeInvalidCons(t: CharTables, c: char, rest: string, previousEscaped: bool)
    requires !ValidCharacter(t, c)
    ensures EscapeCharacters(Mangler(t), [c] + rest, previousEscaped)
         == (if previousEscaped then "" else "_") + EscapeName(c) + "_" + EscapeCharacters(Mangler(t), rest, true)
  {
    assert ([c] + rest)[1..] == rest;
  }

  // The steps of the examples below, one character at a time.

  lemma EscapeMinusAfterEscape(t: CharTables, b: char)
    requires ValidCharacter(t, b)
    ensures EscapeCharacters(Mangler(t), ['-', b], true) == "minus_" + [b]
  {
    EscapeInvalidCons(t, '-', [b], true);
    EscapeValidCons(t, b, [], true);
    assert ['-'] + [b] == ['-', b];
    assert [b] + [] == [b];
  }

  lemma EscapeDotMinus(t: CharTables, b: char)
    requires ValidCharacter(t, b)
    ensures EscapeCharacters(Mangler(t), ['.', '-', b], false) == "_dot_minus_" + [b]
  {
    EscapeMinusAfterEscape(t, b);
    EscapeInvalidCons(t, '.', ['-', b], false);
    assert ['.'] + ['-', b] == ['.', '-', b];
  }

  lemma EscapeBetweenDotMinus(t: CharTables, a: char, b: char)
    requires ValidCharacter(t, a) && ValidCharacter(t, b)
    ensures EscapeCharacters(Mangler(t), [a, '.', '-', b], false) == [a] + "_dot_minus_" + [b]
  {
    EscapeDotMinus(t, b);
    EscapeValidCons(t, a, ['.', '-', b], false);
    assert [a] + ['.', '-', b] == [a, '.', '-', b];
  }

  lemma EscapeDot(t: CharTables, b: char)
    requires ValidCharacter(t, b)
    ensures EscapeCharacters(Mangler(t), ['.', b], false) == "_dot_" + [b]
  {
    EscapeInvalidCons(t, '.', [b], false);
    EscapeValidCons(t, b, [], true);
    assert ['.'] + [b] == ['.', b];
    assert [b] + [] == [b];
  }

  lemma EscapeBetweenDot(t: CharTables, a: char, b: char)
    requires ValidCharacter(t, a) && ValidCharacter(t, b)
    ensures EscapeCharacters(Mangler(t), [a, '.', b], false) == [a] + "_dot_" + [b]
  {
    EscapeDot(t, b);
    EscapeValidCons(t, a, ['.', b], false);
    assert [a] + ['.', b] == [a, '.', b];
  }

  /** Consecutive replacements share their underscore: `a.-b` becomes `A_dot_minus_b`. */
  lemma ConvertSharesUnderscores(t: CharTables, a: char, b: char)
    requires IsLetter(t, a) && ValidCharacter(t, b)
    ensures ConvertToStringConstantName(t, [a, '.', '-', b]) == [t.upper(a)] + "_dot_minus_" + [b]
  {
    EscapeBetweenDotMinus(t, a, b);
    ConvertValidHead(t, [a, '.', '-', b]);
    assert ([a] + "_dot_minus_" + [b])[1..] == "_dot_minus_" + [b];
  }

  /** A run of valid characters followed by an invalid one: the run is kept, and the escape
      opens with an underscore whatever came before the run. */
  lemma EscapeAfterValidRun(t: CharTables, run: string, sep: char, rest: string, previousEscaped: bool)
    requires |run| > 0 && AllValid(t, run) && !ValidCharacter(t, sep)
    ensures EscapeCharacters(Mangler(t), run + ([sep] + rest), previousEscaped)
         == run + ("_" + EscapeName(sep) + "_" + EscapeCharacters(Mangler(t), rest, true))
  {
    EscapeCharactersAppend(Mangler(t), run, [sep] + rest, previousEscaped);
    EscapeAllValid(t, run, previousEscaped);
    EscapeInvalidCons(t, sep, rest, false);
  }

  /** Two valid runs, each followed by an invalid character, then a last valid run. */
  lemma EscapeTwoSeparators(t: CharTables, a: string, s1: char, b: string, s2: char, c: string)
    requires |a| > 0 && |b| > 0 && AllValid(t, a) && AllValid(t, b) && AllValid(t, c)
    requires !ValidCharacter(t, s1) && !ValidCharacter(t, s2)
    ensures EscapeCharacters(Mangler(t), a + ([s1] + (b + ([s2] + c))), false)
         == a + ("_" + EscapeName(s1) + "_" + (b + ("_" + EscapeName(s2) + "_" + c)))
  {
    EscapeAllValid(t, c, true);
    EscapeAfterValidRun(t, b, s2, c, true);
    EscapeAfterValidRun(t, a, s1, b + ([s2] + c), false);
  }

  lemma MyFileCharacters(t: CharTables)
    ensures AllValid(t, "my") && AllValid(t, "file") && AllValid(t, "v2")
    ensures !ValidCharacter(t, '-') && !ValidCharacter(t, '.')
    ensures EscapeName('-') == "minus" && EscapeName('.') == "dot"
  {
    AlphanumericIsValid(t, "my");
    AlphanumericIsValid(t, "file");
    AlphanumericIsValid(t, "v2");
  }

  lemma MyFileEscaped(t: CharTables, s: string, a: string, b: string, c: string)
    requires a == "my" && b == "file" && c == "v2"
    requires s == a + (['-'] + (b + (['.'] + c)))
    ensures EscapeCharacters(Mangler(t), s, false) == a + ("_minus_" + (b + ("_dot_" + c)))
  {
    MyFileCharacters(t);
    EscapeTwoSeparators(t, a, '-', b, '.', c);
  }

  /** When the first character is a letter, the name is the escaped string with that letter upper-cased. */
  lemma ConvertFromEscaped(t: CharTables, s: string, escaped: string)
    requires |s| > 0 && IsLetter(t, s[0]) && EscapeCharacters(Mangler(t), s, false) == escaped
    ensures ConvertToStringConstantName(t, s) == [t.upper(s[0])] + escaped[1..]
  {
    ConvertValidHead(t, s);
  }

  lemma MyFileName(m: char, a: string, b: string, c: string)
    requires m == 'M' && a == "my" && b == "file" && c == "v2"
    ensures [m] + (a + ("_minus_" + (b + ("_dot_" + c))))[1..] == "My_minus_file_dot_v2"
  {
  }

  /** The example `my-file.v2`. */
  lemma ConvertMyFileExample(t: CharTables)
    requires WellFormed(t)
    ensures ConvertToStringConstantName(t, "my-file.v2") == "My_minus_file_dot_v2"
  {
    var s := "my-file.v2";
    var a, b, c := "my", "file", "v2";
    assert s == a + (['-'] + (b + (['.'] + c)));
    MyFileEscaped(t, s, a, b, c);
    assert UpperBehavesAt(t, 'm');
    ConvertFromEscaped(t, s, a + ("_minus_" + (b + ("_dot_" + c))));
    MyFileName(t.upper('m'), a, b, c);
  }

  /** The example `a.-b`: one underscore between the two escapes, and the first letter upper-cased. */
  lemma ConvertDotMinusExample(t: CharTables)
    requires WellFormed(t)
    ensures ConvertToStringConstantName(t, "a.-b") == "A_dot_minus_b"
  {
    var a, b := 'a', 'b';
    assert UpperBehavesAt(t, a);
    assert IsLetter(t, a) && ValidCharacter(t, b);
    ConvertSharesUnderscores(t, a, b);
    DotMinusName(a, b, t.upper(a));
  }

  lemma DotMinusName(a: char, b: char, upper: char)
    requires a == 'a' && b == 'b' && upper == 'A'
    ensures [a, '.', '-', b] == "a.-b"
    ensures [upper] + "_dot_minus_" + [b] == "A_dot_minus_b"
  {
  }

  /** When the first character is a letter it is the one upper-cased. */
  lemma ConvertValidHead(t: CharTables, s: string)
    requires |s| > 0 && IsLetter(t, s[0])
    ensures ConvertToStringConstantName(t, s) == [t.upper(s[0])] + EscapeCharacters(Mangler(t), s, false)[1..]
  {
    assert s == [s[0]] + s[1..];
    EscapeValidCons(t, s[0], s[1..], false);
  }

  /** The mangler does not keep names apart: `a.b` and `a_dot_b` get the same constant name,
      `A_dot_b`, and nothing downstream renames either of them. */
  lemma MangledNamesCanCollide(t: CharTables, a: char, b: char)
    requires IsLetter(t, a) && ValidCharacter(t, b)
    ensures ConvertToStringConstantName(t, [a, '.', b]) == [t.upper(a)] + "_dot_" + [b]
    ensures ConvertToStringConstantName(t, [a] + "_dot_" + [b]) == [t.upper(a)] + "_dot_" + [b]
  {
    EscapeBetweenDot(t, a, b);
    ConvertValidHead(t, [a, '.', b]);
    var spelled := [a] + "_dot_" + [b];
    assert spelled[1..] == "_dot_" + [b];
    AlphanumericIsValid(t, "dot");
    assert ValidCharacter(t, '_');
    assert AllValid(t, spelled);
    ConvertValidName(t, spelled);
  }

  /** The single fallback can still give the enclosing type's own name: a file `Foo` with no
      extension, in a type `Foo`. */
  lemma FallbackCanCollide(paths: PathOps, t: CharTables, filePath: string)
    requires WellFormed(t)
    requires paths.fileName(filePath) == "Foo" && paths.fileNameWithoutExtension(filePath) == "Foo"
    ensures GetStringConstantName(paths, t, filePath, "Foo") == "Foo"
  {
    assert UpperBehavesAt(t, 'F');
    assert AllValid(t, "Foo");
    ConvertValidName(t, "Foo");
  }
}
