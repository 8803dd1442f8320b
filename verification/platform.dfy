/**
 The System.IO.Path primitives the generator calls. Their results depend on the
 host operating system, so the model takes them as a parameter instead of
 defining them.
 */
module Paths {
  import opened Wrappers

  datatype PathOps = PathOps(
    /** Path.GetDirectoryName; `None` where it returns null (a root path). A bare file name has the directory "". */
    directoryName: string -> Option<string>,
    /** Path.GetExtension, including the leading period, or "" when there is none. */
    extension: string -> string,
    /** Path.GetFileName. */
    fileName: string -> string,
    /** Path.GetFileNameWithoutExtension. */
    fileNameWithoutExtension: string -> string,
    /** Path.Combine of two paths. */
    combine: (string, string) -> string,
    /** Path.GetFullPath; `None` where it throws ArgumentException. */
    fullPath: string -> Option<string>)
}

/**
 The character classification the identifier mangler relies on. For ASCII the
 Unicode general categories are fixed data and are written out here. For the
 rest of the Basic Multilingual Plane the category table is a parameter. A
 code point above U+FFFF is a surrogate pair in a .NET string, and the
 classification of its first code unit, the high surrogate, is `Surrogate`.
 `char.ToUpper` depends on the current culture, so it is a parameter too.
 */
module Unicode {

  /** System.Globalization.UnicodeCategory. */
  datatype Category =
    | UppercaseLetter | LowercaseLetter | TitlecaseLetter | ModifierLetter | OtherLetter
    | NonSpacingMark | SpacingCombiningMark | EnclosingMark
    | DecimalDigitNumber | LetterNumber | OtherNumber
    | SpaceSeparator | LineSeparator | ParagraphSeparator
    | Control | Format | Surrogate | PrivateUse
    | ConnectorPunctuation | DashPunctuation | OpenPunctuation | ClosePunctuation
    | InitialQuotePunctuation | FinalQuotePunctuation | OtherPunctuation
    | MathSymbol | CurrencySymbol | ModifierSymbol | OtherSymbol
    | OtherNotAssigned

  /** The culture- and version-dependent tables: categories of non-ASCII BMP characters, and `char.ToUpper`. */
  datatype CharTables = CharTables(category: char -> Category, upper: char -> char)

  /** The general category of an ASCII character, as the Unicode Character Database assigns it. */
  function AsciiCategory(c: char): Category
    requires c as int < 0x80
  {
    if c as int < 0x20 || c as int == 0x7F then Control
    else if c == ' ' then SpaceSeparator
    else if '0' <= c <= '9' then DecimalDigitNumber
    else if 'A' <= c <= 'Z' then UppercaseLetter
    else if 'a' <= c <= 'z' then LowercaseLetter
    else if c == '_' then ConnectorPunctuation
    else if c == '-' then DashPunctuation
    else if c == '(' || c == '[' || c == '{' then OpenPunctuation
    else if c == ')' || c == ']' || c == '}' then ClosePunctuation
    else if c == '+' || c == '<' || c == '=' || c == '>' || c == '|' || c == '~' then MathSymbol
    else if c == '$' then CurrencySymbol
    else if c == '^' || c == '`' then ModifierSymbol
    else OtherPunctuation
  }

  /** CharUnicodeInfo.GetUnicodeCategory of the first UTF-16 code unit of `c`. */
  function CategoryOf(t: CharTables, c: char): Category
  {
    if c as int < 0x80 then AsciiCategory(c)
    else if c as int >= 0x1_0000 then Surrogate
    else t.category(c)
  }

  predicate IsLetterCategory(k: Category)
  {
    k.UppercaseLetter? || k.LowercaseLetter? || k.TitlecaseLetter? || k.ModifierLetter? || k.OtherLetter?
  }

  /** char.IsLetter. */
  predicate IsLetter(t: CharTables, c: char)
  {
    IsLetterCategory(CategoryOf(t, c))
  }

  /** What every culture's `char.ToUpper` does at `c`: letters stay letters, upper-casing twice
      is upper-casing once, and ASCII letters map as expected (except `i`, which the Turkish
      cultures map to U+0130). */
  ghost predicate UpperBehavesAt(t: CharTables, c: char)
  {
    && (IsLetter(t, c) ==> IsLetter(t, t.upper(c)) && t.upper(t.upper(c)) == t.upper(c))
    && ('A' <= c <= 'Z' ==> t.upper(c) == c)
    && ('a' <= c <= 'z' && c != 'i' ==> t.upper(c) == (c as int - 32) as char)
  }

  ghost predicate WellFormed(t: CharTables)
  {
    && t.upper('_') == '_'
    && forall c :: UpperBehavesAt(t, c)
  }

  /** Tables that treat every non-ASCII character as a symbol and upper-case ASCII only. */
  function AsciiTables(): CharTables
  {
    CharTables(
      _ => OtherSymbol,
      c => if 'a' <= c <= 'z' then (c as int - 32) as char else c)
  }

  /** The assumptions are consistent: some tables satisfy them. */
  lemma AsciiTablesWellFormed()
    ensures WellFormed(AsciiTables())
  {
    var t := AsciiTables();
    forall c
      ensures UpperBehavesAt(t, c)
    {
    }
  }
}
