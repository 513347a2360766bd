/**
 * The catalogue of naming violations, codes 100 to 116 (`violations/naming.py`).
 *
 * The entries are grouped as in the module's documentation: module names (10x),
 * which concern the file name and so the whole module, and general names (11x),
 * which concern an identifier in the code.
 */
module Naming {
  import opened Wrappers
  import opened ViolationBase

  datatype NamingViolation =
    | WrongModuleNameViolation
    | WrongModuleMagicNameViolation
    | WrongModuleNamePatternViolation
    | WrongVariableNameViolation
    | TooShortNameViolation
    | PrivateNameViolation
    | SameAliasImportViolation
    | UnderscoredNumberNameViolation
    | UpperCaseAttributeViolation
    | ConsecutiveUnderscoresInNameViolation

  /** Every entry, in the order the source declares them. */
  const All: seq<NamingViolation> := [
    WrongModuleNameViolation, WrongModuleMagicNameViolation, WrongModuleNamePatternViolation,
    WrongVariableNameViolation, TooShortNameViolation, PrivateNameViolation,
    SameAliasImportViolation, UnderscoredNumberNameViolation, UpperCaseAttributeViolation,
    ConsecutiveUnderscoresInNameViolation
  ]

  function Code(k: NamingViolation): (code: nat)
    ensures 100 <= code <= 116
  {
    match k
    case WrongModuleNameViolation => 100
    case WrongModuleMagicNameViolation => 101
    case WrongModuleNamePatternViolation => 102
    case WrongVariableNameViolation => 110
    case TooShortNameViolation => 111
    case PrivateNameViolation => 112
    case SameAliasImportViolation => 113
    case UnderscoredNumberNameViolation => 114
    case UpperCaseAttributeViolation => 115
    case ConsecutiveUnderscoresInNameViolation => 116
  }

  /** The `error_template` of each entry. */
  function Template(k: NamingViolation): string
  {
    match k
    case WrongModuleNameViolation => "Found wrong module name"
    case WrongModuleMagicNameViolation => "Found wrong module magic name"
    case WrongModuleNamePatternViolation => "Found incorrect module name pattern"
    case WrongVariableNameViolation => "Found wrong variable name \"{0}\""
    case TooShortNameViolation => "Found too short name \"{0}\""
    case PrivateNameViolation => "Found private name pattern \"{0}\""
    case SameAliasImportViolation => "Found same alias import \"{0}\""
    case UnderscoredNumberNameViolation => "Found underscored name pattern \"{0}\""
    case UpperCaseAttributeViolation => "Found upper-case constant in a class \"{0}\""
    case ConsecutiveUnderscoresInNameViolation => "Found consecutive underscores in a variable \"{0}\""
  }

  /** `should_use_text`: set to False by the three module-name entries. */
  function UsesText(k: NamingViolation): bool
  {
    !(k.WrongModuleNameViolation? || k.WrongModuleMagicNameViolation? || k.WrongModuleNamePatternViolation?)
  }

  /** The base class each entry derives from. */
  function BaseClass(k: NamingViolation): Anchor
  {
    match k
    case WrongModuleNameViolation => SimpleViolation
    case WrongModuleMagicNameViolation => SimpleViolation
    case WrongModuleNamePatternViolation => SimpleViolation
    case WrongVariableNameViolation => ASTViolation
    case TooShortNameViolation => MaybeASTViolation
    case PrivateNameViolation => MaybeASTViolation
    case SameAliasImportViolation => ASTViolation
    case UnderscoredNumberNameViolation => MaybeASTViolation
    case UpperCaseAttributeViolation => ASTViolation
    case ConsecutiveUnderscoresInNameViolation => MaybeASTViolation
  }

  /** The sections of the module's documentation. */
  datatype Topic = ModuleNames | GeneralNames

  function TopicOf(k: NamingViolation): Topic
  {
    if k.WrongModuleNameViolation? || k.WrongModuleMagicNameViolation? || k.WrongModuleNamePatternViolation?
    then ModuleNames
    else GeneralNames
  }

  /** The entry registered under a numeric code, if any. */
  function FromCode(code: nat): (r: Option<NamingViolation>)
    ensures r.Some? ==> Code(r.value) == code
  {
    if code == 100 then Some(WrongModuleNameViolation)
    else if code == 101 then Some(WrongModuleMagicNameViolation)
    else if code == 102 then Some(WrongModuleNamePatternViolation)
    else if code == 110 then Some(WrongVariableNameViolation)
    else if code == 111 then Some(TooShortNameViolation)
    else if code == 112 then Some(PrivateNameViolation)
    else if code == 113 then Some(SameAliasImportViolation)
    else if code == 114 then Some(UnderscoredNumberNameViolation)
    else if code == 115 then Some(UpperCaseAttributeViolation)
    else if code == 116 then Some(ConsecutiveUnderscoresInNameViolation)
    else None
  }

  lemma AllKinds(k: NamingViolation)
    ensures k in All && |All| == 10
  {
  }

  /** Looking an entry up by its own code finds that entry. */
  lemma FromCodeFindsEntry(k: NamingViolation)
    ensures FromCode(Code(k)) == Some(k)
  {
  }

  /** No two entries share a code. */
  lemma CodesUnique(a: NamingViolation, b: NamingViolation)
    ensures Code(a) == Code(b) <==> a == b
  {
    FromCodeFindsEntry(a);
    FromCodeFindsEntry(b);
  }

  /** The codes in use are exactly 100-102 and 110-116. */
  lemma CodesInUse(code: nat)
    ensures FromCode(code).Some? <==> 100 <= code <= 102 || 110 <= code <= 116
  {
  }

  /** The module-name entries are the module-wide ones, carry no text, and are 10x;
      every general-name entry uses text and is 11x. */
  lemma ModuleNameEntries(k: NamingViolation)
    ensures TopicOf(k) == ModuleNames <==> BaseClass(k) == SimpleViolation
    ensures TopicOf(k) == ModuleNames <==> !UsesText(k)
    ensures Code(k) / 10 == if TopicOf(k) == ModuleNames then 10 else 11
  {
  }

  /** Too-short, private, underscored-number and consecutive-underscore names may lack a
      node; wrong variable name, same alias and upper-case attribute always have one. */
  lemma MaybeNodeEntries(k: NamingViolation)
    ensures BaseClass(k) == MaybeASTViolation <==> Code(k) in {111, 112, 114, 116}
    ensures BaseClass(k) == ASTViolation <==> Code(k) in {110, 113, 115}
  {
  }

  /** A template holds one `{0}` exactly when the entry uses text, and none otherwise. */
  lemma TemplateMatchesText(k: NamingViolation)
    ensures Placeholders(Template(k)) == if UsesText(k) then 1 else 0
  {
    match k
    case WrongModuleNameViolation => WrongModuleNameTemplate();
    case WrongModuleMagicNameViolation => WrongModuleMagicNameTemplate();
    case WrongModuleNamePatternViolation => WrongModuleNamePatternTemplate();
    case WrongVariableNameViolation => WrongVariableNameTemplate();
    case TooShortNameViolation => TooShortNameTemplate();
    case PrivateNameViolation => PrivateNameTemplate();
    case SameAliasImportViolation => SameAliasImportTemplate();
    case UnderscoredNumberNameViolation => UnderscoredNumberNameTemplate();
    case UpperCaseAttributeViolation => UpperCaseAttributeTemplate();
    case ConsecutiveUnderscoresInNameViolation => ConsecutiveUnderscoresInNameTemplate();
  }

  // One lemma per template, each about a single literal.

  lemma WrongModuleNameTemplate()
    ensures Placeholders(Template(WrongModuleNameViolation)) == 0
  {
    NoPlaceholder(Template(WrongModuleNameViolation), "Found wrong ", "module name");
  }

  lemma WrongModuleMagicNameTemplate()
    ensures Placeholders(Template(WrongModuleMagicNameViolation)) == 0
  {
    NoPlaceholder(Template(WrongModuleMagicNameViolation), "Found wrong ", "module magic name");
  }

  lemma WrongModuleNamePatternTemplate()
    ensures Placeholders(Template(WrongModuleNamePatternViolation)) == 0
  {
    NoPlaceholder(Template(WrongModuleNamePatternViolation), "Found incorrect ", "module name pattern");
  }

  lemma WrongVariableNameTemplate()
    ensures Placeholders(Template(WrongVariableNameViolation)) == 1
  {
    OnePlaceholder(Template(WrongVariableNameViolation), "Found wrong ", "variable name \"", "\"");
  }

  lemma TooShortNameTemplate()
    ensures Placeholders(Template(TooShortNameViolation)) == 1
  {
    OnePlaceholder(Template(TooShortNameViolation), "Found too ", "short name \"", "\"");
  }

  lemma PrivateNameTemplate()
    ensures Placeholders(Template(PrivateNameViolation)) == 1
  {
    OnePlaceholder(Template(PrivateNameViolation), "Found private ", "name pattern \"", "\"");
  }

  lemma SameAliasImportTemplate()
    ensures Placeholders(Template(SameAliasImportViolation)) == 1
  {
    OnePlaceholder(Template(SameAliasImportViolation), "Found same ", "alias import \"", "\"");
  }

  lemma UnderscoredNumberNameTemplate()
    ensures Placeholders(Template(UnderscoredNumberNameViolation)) == 1
  {
    OnePlaceholder(Template(UnderscoredNumberNameViolation), "Found underscored ", "name pattern \"", "\"");
  }

  lemma UpperCaseAttributeTemplate()
    ensures Placeholders(Template(UpperCaseAttributeViolation)) == 1
  {
    OnePlaceholder(Template(UpperCaseAttributeViolation), "Found upper-case constant ", "in a class \"", "\"");
  }

  lemma ConsecutiveUnderscoresInNameTemplate()
    ensures Placeholders(Template(ConsecutiveUnderscoresInNameViolation)) == 1
  {
    OnePlaceholder(Template(ConsecutiveUnderscoresInNameViolation), "Found consecutive ", "underscores in a variable \"", "\"");
  }
}
