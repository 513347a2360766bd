/**
 * The catalogue of complexity violations, codes 200 to 225 (`violations/complexity.py`).
 *
 * Each entry is a constant class: a numeric code, a message template, whether the
 * message carries a text (`should_use_text`, True unless the class sets it to False)
 * and the base class that says how the violation is anchored. The source groups the
 * entries under three banners, and the codes follow them: module complexity is 20x,
 * functions and classes 21x, structures 22x.
 */
module Complexity {
  import opened Wrappers
  import opened ViolationBase

  datatype ComplexityViolation =
    | JonesScoreViolation
    | TooManyImportsViolation
    | TooManyModuleMembersViolation
    | TooManyLocalsViolation
    | TooManyArgumentsViolation
    | TooManyReturnsViolation
    | TooManyExpressionsViolation
    | TooManyMethodsViolation
    | TooDeepNestingViolation
    | LineComplexityViolation
    | TooManyConditionsViolation
    | TooManyElifsViolation
    | TooManyForsInComprehensionViolation
    | TooManyBaseClassesViolation

  /** Every entry, in the order the source declares them. */
  const All: seq<ComplexityViolation> := [
    JonesScoreViolation, TooManyImportsViolation, TooManyModuleMembersViolation,
    TooManyLocalsViolation, TooManyArgumentsViolation, TooManyReturnsViolation,
    TooManyExpressionsViolation, TooManyMethodsViolation,
    TooDeepNestingViolation, LineComplexityViolation, TooManyConditionsViolation,
    TooManyElifsViolation, TooManyForsInComprehensionViolation, TooManyBaseClassesViolation
  ]

  function Code(k: ComplexityViolation): (code: nat)
    ensures 200 <= code <= 225
  {
    match k
    case JonesScoreViolation => 200
    case TooManyImportsViolation => 201
    case TooManyModuleMembersViolation => 202
    case TooManyLocalsViolation => 210
    case TooManyArgumentsViolation => 211
    case TooManyReturnsViolation => 212
    case TooManyExpressionsViolation => 213
    case TooManyMethodsViolation => 214
    case TooDeepNestingViolation => 220
    case LineComplexityViolation => 221
    case TooManyConditionsViolation => 222
    case TooManyElifsViolation => 223
    case TooManyForsInComprehensionViolation => 224
    case TooManyBaseClassesViolation => 225
  }

  /** The `error_template` of each entry. */
  function Template(k: ComplexityViolation): string
  {
    match k
    case JonesScoreViolation => "Found module with high Jones Complexity score"
    case TooManyImportsViolation => "Found module with too many imports: {0}"
    case TooManyModuleMembersViolation => "Found too many module members"
    case TooManyLocalsViolation => "Found too many local variables \"{0}\""
    case TooManyArgumentsViolation => "Found too many arguments \"{0}\""
    case TooManyReturnsViolation => "Found too many return statements \"{0}\""
    case TooManyExpressionsViolation => "Found too many expressions \"{0}\""
    case TooManyMethodsViolation => "Found too many methods \"{0}\""
    case TooDeepNestingViolation => "Found too deep nesting \"{0}\""
    case LineComplexityViolation => "Found line with high Jones Complexity: {0}"
    case TooManyConditionsViolation => "Found a condition with too much logic: {0}"
    case TooManyElifsViolation => "Found too many `elif` branches"
    case TooManyForsInComprehensionViolation => "Found a comprehension with too many `for` statements"
    case TooManyBaseClassesViolation => "Too many number of base classes"
  }

  /** `should_use_text`: set to False by five entries, inherited as True by the others. */
  function UsesText(k: ComplexityViolation): bool
  {
    !(k.JonesScoreViolation? || k.TooManyModuleMembersViolation? || k.TooManyElifsViolation? ||
      k.TooManyForsInComprehensionViolation? || k.TooManyBaseClassesViolation?)
  }

  /** The base class each entry derives from. */
  function BaseClass(k: ComplexityViolation): Anchor
  {
    if k.JonesScoreViolation? || k.TooManyImportsViolation? || k.TooManyModuleMembersViolation?
    then SimpleViolation
    else ASTViolation
  }

  /** The banners the source groups its entries under. */
  datatype Topic = ModuleComplexity | FunctionAndClassComplexity | StructureComplexity

  function TopicOf(k: ComplexityViolation): Topic
  {
    match k
    case JonesScoreViolation => ModuleComplexity
    case TooManyImportsViolation => ModuleComplexity
    case TooManyModuleMembersViolation => ModuleComplexity
    case TooManyLocalsViolation => FunctionAndClassComplexity
    case TooManyArgumentsViolation => FunctionAndClassComplexity
    case TooManyReturnsViolation => FunctionAndClassComplexity
    case TooManyExpressionsViolation => FunctionAndClassComplexity
    case TooManyMethodsViolation => FunctionAndClassComplexity
    case _ => StructureComplexity
  }

  /** The heading each entry is listed under in the module's documentation, entry by
      entry as the docstring lists them. */
  function DocSection(k: ComplexityViolation): Topic
  {
    match k
    case JonesScoreViolation => ModuleComplexity
    case TooManyImportsViolation => ModuleComplexity
    case TooManyModuleMembersViolation => ModuleComplexity
    case TooManyBaseClassesViolation => ModuleComplexity
    case TooManyLocalsViolation => FunctionAndClassComplexity
    case TooManyArgumentsViolation => FunctionAndClassComplexity
    case TooManyReturnsViolation => FunctionAndClassComplexity
    case TooManyExpressionsViolation => FunctionAndClassComplexity
    case TooManyMethodsViolation => FunctionAndClassComplexity
    case TooDeepNestingViolation => StructureComplexity
    case LineComplexityViolation => StructureComplexity
    case TooManyConditionsViolation => StructureComplexity
    case TooManyElifsViolation => StructureComplexity
    case TooManyForsInComprehensionViolation => StructureComplexity
  }

  /** The documentation heading and the declared banner disagree for exactly one entry,
      too many base classes, whose code says it is a structure check. */
  lemma DocSectionDisagrees(k: ComplexityViolation)
    ensures DocSection(k) != TopicOf(k) <==> k == TooManyBaseClassesViolation
    ensures DocSection(TooManyBaseClassesViolation) == ModuleComplexity
    ensures Code(TooManyBaseClassesViolation) / 10 == 22
  {
  }

  /** The entry registered under a numeric code, if any. */
  function FromCode(code: nat): (r: Option<ComplexityViolation>)
    ensures r.Some? ==> Code(r.value) == code
  {
    if code == 200 then Some(JonesScoreViolation)
    else if code == 201 then Some(TooManyImportsViolation)
    else if code == 202 then Some(TooManyModuleMembersViolation)
    else if code == 210 then Some(TooManyLocalsViolation)
    else if code == 211 then Some(TooManyArgumentsViolation)
    else if code == 212 then Some(TooManyReturnsViolation)
    else if code == 213 then Some(TooManyExpressionsViolation)
    else if code == 214 then Some(TooManyMethodsViolation)
    else if code == 220 then Some(TooDeepNestingViolation)
    else if code == 221 then Some(LineComplexityViolation)
    else if code == 222 then Some(TooManyConditionsViolation)
    else if code == 223 then Some(TooManyElifsViolation)
    else if code == 224 then Some(TooManyForsInComprehensionViolation)
    else if code == 225 then Some(TooManyBaseClassesViolation)
    else None
  }

  lemma AllKinds(k: ComplexityViolation)
    ensures k in All && |All| == 14
  {
  }

  /** Looking an entry up by its own code finds that entry. */
  lemma FromCodeFindsEntry(k: ComplexityViolation)
    ensures FromCode(Code(k)) == Some(k)
  {
  }

  /** No two entries share a code. */
  lemma CodesUnique(a: ComplexityViolation, b: ComplexityViolation)
    ensures Code(a) == Code(b) <==> a == b
  {
    FromCodeFindsEntry(a);
    FromCodeFindsEntry(b);
  }

  /** The codes in use are exactly 200-202, 210-214 and 220-225. */
  lemma CodesInUse(code: nat)
    ensures FromCode(code).Some? <==> 200 <= code <= 202 || 210 <= code <= 214 || 220 <= code <= 225
  {
  }

  /** The entries that set `should_use_text = False` are 200, 202, 223, 224 and 225. */
  lemma EntriesWithoutText(k: ComplexityViolation)
    ensures !UsesText(k) <==> Code(k) in {200, 202, 223, 224, 225}
  {
  }

  /** A template holds one `{0}` exactly when the entry uses text, and none otherwise. */
  lemma TemplateMatchesText(k: ComplexityViolation)
    ensures Placeholders(Template(k)) == if UsesText(k) then 1 else 0
  {
    match k
    case JonesScoreViolation => JonesScoreTemplate();
    case TooManyImportsViolation => TooManyImportsTemplate();
    case TooManyModuleMembersViolation => TooManyModuleMembersTemplate();
    case TooManyLocalsViolation => TooManyLocalsTemplate();
    case TooManyArgumentsViolation => TooManyArgumentsTemplate();
    case TooManyReturnsViolation => TooManyReturnsTemplate();
    case TooManyExpressionsViolation => TooManyExpressionsTemplate();
    case TooManyMethodsViolation => TooManyMethodsTemplate();
    case TooDeepNestingViolation => TooDeepNestingTemplate();
    case LineComplexityViolation => LineComplexityTemplate();
    case TooManyConditionsViolation => TooManyConditionsTemplate();
    case TooManyElifsViolation => TooManyElifsTemplate();
    case TooManyForsInComprehensionViolation => TooManyForsInComprehensionTemplate();
    case TooManyBaseClassesViolation => TooManyBaseClassesTemplate();
  }

  // One lemma per template, each about a single literal.

  lemma JonesScoreTemplate()
    ensures Placeholders(Template(JonesScoreViolation)) == 0
  {
    NoPlaceholder(Template(JonesScoreViolation), "Found module with high ", "Jones Complexity score");
  }

  lemma TooManyImportsTemplate()
    ensures Placeholders(Template(TooManyImportsViolation)) == 1
  {
    OnePlaceholder(Template(TooManyImportsViolation), "Found module with ", "too many imports: ", "");
  }

  lemma TooManyModuleMembersTemplate()
    ensures Placeholders(Template(TooManyModuleMembersViolation)) == 0
  {
    NoPlaceholder(Template(TooManyModuleMembersViolation), "Found too many ", "module members");
  }

  lemma TooManyLocalsTemplate()
    ensures Placeholders(Template(TooManyLocalsViolation)) == 1
  {
    OnePlaceholder(Template(TooManyLocalsViolation), "Found too many ", "local variables \"", "\"");
  }

  lemma TooManyArgumentsTemplate()
    ensures Placeholders(Template(TooManyArgumentsViolation)) == 1
  {
    OnePlaceholder(Template(TooManyArgumentsViolation), "Found too many ", "arguments \"", "\"");
  }

  lemma TooManyReturnsTemplate()
    ensures Placeholders(Template(TooManyReturnsViolation)) == 1
  {
    OnePlaceholder(Template(TooManyReturnsViolation), "Found too many ", "return statements \"", "\"");
  }

  lemma TooManyExpressionsTemplate()
    ensures Placeholders(Template(TooManyExpressionsViolation)) == 1
  {
    OnePlaceholder(Template(TooManyExpressionsViolation), "Found too many ", "expressions \"", "\"");
  }

  lemma TooManyMethodsTemplate()
    ensures Placeholders(Template(TooManyMethodsViolation)) == 1
  {
    OnePlaceholder(Template(TooManyMethodsViolation), "Found too many ", "methods \"", "\"");
  }

  lemma TooDeepNestingTemplate()
    ensures Placeholders(Template(TooDeepNestingViolation)) == 1
  {
    OnePlaceholder(Template(TooDeepNestingViolation), "Found too deep ", "nesting \"", "\"");
  }

  lemma LineComplexityTemplate()
    ensures Placeholders(Template(LineComplexityViolation)) == 1
  {
    OnePlaceholder(Template(LineComplexityViolation), "Found line with high ", "Jones Complexity: ", "");
  }

  lemma TooManyConditionsTemplate()
    ensures Placeholders(Template(TooManyConditionsViolation)) == 1
  {
    OnePlaceholder(Template(TooManyConditionsViolation), "Found a condition ", "with too much logic: ", "");
  }

  lemma TooManyElifsTemplate()
    ensures Placeholders(Template(TooManyElifsViolation)) == 0
  {
    NoPlaceholder(Template(TooManyElifsViolation), "Found too many ", "`elif` branches");
  }

  lemma TooManyForsInComprehensionTemplate()
    ensures Placeholders(Template(TooManyForsInComprehensionViolation)) == 0
  {
    NoPlaceholder(Template(TooManyForsInComprehensionViolation), "Found a comprehension with", " too many `for` statements");
  }

  lemma TooManyBaseClassesTemplate()
    ensures Placeholders(Template(TooManyBaseClassesViolation)) == 0
  {
    NoPlaceholder(Template(TooManyBaseClassesViolation), "Too many number ", "of base classes");
  }

  /** Jones score, too many imports and too many module members concern the whole
      module; every other entry is anchored at a node. */
  lemma ModuleLevelEntries(k: ComplexityViolation)
    ensures BaseClass(k) == SimpleViolation <==> TopicOf(k) == ModuleComplexity
    ensures BaseClass(k) != MaybeASTViolation
  {
  }

  /** The tens digit of a code names its banner: 20x, 21x, 22x. */
  lemma CodesGroupByTopic(k: ComplexityViolation)
    ensures Code(k) / 10 == match TopicOf(k)
      case ModuleComplexity => 20
      case FunctionAndClassComplexity => 21
      case StructureComplexity => 22
  {
  }

  /** Every entry is shown as Z2 followed by two more digits; Jones score is Z200. */
  lemma DisplayedCodes(k: ComplexityViolation)
    ensures DisplayCode(Code(JonesScoreViolation)) == "Z200"
    ensures |DisplayCode(Code(k))| == 4 && DisplayCode(Code(k))[..2] == "Z2"
  {
    TwoHundreds(Code(k));
  }

  lemma TwoHundreds(c: nat)
    requires 200 <= c < 300
    ensures |DisplayCode(c)| == 4 && DisplayCode(c)[..2] == "Z2"
  {
    assert Decimal(c) == Decimal(c / 10) + [Digit(c % 10)];
    assert Decimal(c / 10) == Decimal(c / 100) + [Digit(c / 10 % 10)];
    assert Decimal(c / 100) == "2";
  }
}
