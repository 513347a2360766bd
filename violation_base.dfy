/**
 * What every violation catalogue entry is made of.
 *
 * `violations/base.py` is not part of this model. From the catalogues we know that an
 * entry derives from one of three base classes (a violation of the whole module, one
 * anchored at a syntax node, or one that may be anchored at a node), and that it is
 * shown to the user as the letter Z followed by its numeric code. A message template
 * marks the place of the violation's text with the placeholder `{0}`.
 */
module ViolationBase {

  /** The base class of a catalogue entry: how the violation is anchored. */
  datatype Anchor = SimpleViolation | ASTViolation | MaybeASTViolation

  /** The number of `{0}` placeholders in a template, read left to right. */
  function Placeholders(template: string): nat
  {
    if |template| < 3 then 0
    else if template[..3] == "{0}" then 1 + Placeholders(template[3..])
    else Placeholders(template[1..])
  }

  /** A stretch of text with no opening brace adds no placeholder. */
  lemma {:induction false} BraceFreePrefix(p: string, q: string)
    requires '{' !in p
    ensures Placeholders(p + q) == Placeholders(q)
  {
    if p != [] {
      var s := p + q;
      assert s[0] == p[0] && s[1..] == p[1..] + q;
      if |s| >= 3 {
        assert s[..3][0] == p[0];
      }
      BraceFreePrefix(p[1..], q);
    } else {
      assert p + q == q;
    }
  }

  /** A template made of brace-free pieces has no placeholder. */
  lemma NoPlaceholder(template: string, a: string, b: string)
    requires template == a + b && '{' !in a && '{' !in b
    ensures Placeholders(template) == 0
  {
    BraceFreePrefix(a, b);
    BraceFreePrefix(b, []);
    assert b + [] == b;
  }

  /** A template made of brace-free pieces around one `{0}` has exactly one placeholder. */
  lemma OnePlaceholder(template: string, a: string, b: string, c: string)
    requires template == a + b + "{0}" + c && '{' !in a && '{' !in b && '{' !in c
    ensures Placeholders(template) == 1
  {
    assert a + b + "{0}" + c == (a + b) + ("{0}" + c);
    BraceFreePrefix(a + b, "{0}" + c);
    var s := "{0}" + c;
    assert s[..3] == "{0}" && s[3..] == c;
    BraceFreePrefix(c, []);
    assert c + [] == c;
  }

  function Digit(d: nat): (ch: char)
    requires d < 10
    ensures '0' <= ch <= '9' && ch as int - '0' as int == d
  {
    ('0' as int + d) as char
  }

  /** The decimal digits of `n`, as Python's `str` writes a non-negative int. */
  function Decimal(n: nat): (s: string)
    ensures |s| >= 1
    ensures forall i | 0 <= i < |s| :: '0' <= s[i] <= '9'
  {
    if n < 10 then [Digit(n)] else Decimal(n / 10) + [Digit(n % 10)]
  }

  /** The number a string of decimal digits stands for. */
  function DecimalValue(s: string): nat
    requires forall i | 0 <= i < |s| :: '0' <= s[i] <= '9'
  {
    if s == [] then 0
    else 10 * DecimalValue(s[..|s| - 1]) + (s[|s| - 1] as int - '0' as int)
  }

  lemma {:induction false} DecimalRoundTrip(n: nat)
    ensures DecimalValue(Decimal(n)) == n
  {
    if n >= 10 {
      var s := Decimal(n);
      assert s[..|s| - 1] == Decimal(n / 10);
      DecimalRoundTrip(n / 10);
    }
  }

  /** The code shown to the user: `Z` followed by the numeric code. */
  function DisplayCode(code: nat): (s: string)
    ensures |s| >= 2 && s[0] == 'Z'
    ensures forall i | 1 <= i < |s| :: '0' <= s[i] <= '9'
  {
    "Z" + Decimal(code)
  }

  /** Different codes are shown differently: the display can be read back. */
  lemma DisplayCodeInjective(a: nat, b: nat)
    ensures DisplayCode(a) == DisplayCode(b) <==> a == b
  {
    if DisplayCode(a) == DisplayCode(b) {
      assert Decimal(a) == DisplayCode(a)[1..];
      assert Decimal(b) == DisplayCode(b)[1..];
      DecimalRoundTrip(a);
      DecimalRoundTrip(b);
    }
  }
}
