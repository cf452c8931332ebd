/** The contact form's pattern table and message table (`patterns` and
    `messages` in script.js), written as predicates over the characters of
    the trimmed field value instead of regular expressions. */
module FieldRules {
  import opened Optional
  import opened Text

  predicate IsAsciiLetter(c: char)
  {
    ('a' <= c <= 'z') || ('A' <= c <= 'Z')
  }

  /** `^[a-zA-Z\s]{2,50}$` */
  predicate NameMatches(s: string)
  {
    2 <= |s| <= 50 && forall k :: 0 <= k < |s| ==> IsAsciiLetter(s[k]) || IsWhitespace(s[k])
  }

  /** `[^\s@]+`: a non-empty run of characters that are neither whitespace nor '@'. */
  predicate EmailPart(p: string)
  {
    p != [] && forall k :: 0 <= k < |p| ==> !IsWhitespace(p[k]) && p[k] != '@'
  }

  /** `^[^\s@]+@[^\s@]+\.[^\s@]+$`: three such runs joined by '@' and by '.'.
      The run before the '.' may itself hold dots. */
  predicate EmailMatches(s: string)
  {
    exists a, d | 0 < a < d < |s| ::
      s[a] == '@' && s[d] == '.' && EmailPart(s[..a]) && EmailPart(s[a + 1..d]) && EmailPart(s[d + 1..])
  }

  /** `(` `)` `+` `-`, a digit or whitespace: the class `[\d\s\-\+\(\)]`. */
  predicate IsPhoneChar(c: char)
  {
    IsDigit(c) || IsWhitespace(c) || c == '-' || c == '+' || c == '(' || c == ')'
  }

  /** `^[\d\s\-\+\(\)]{10,20}$` */
  predicate PhoneMatches(s: string)
  {
    10 <= |s| <= 20 && forall k :: 0 <= k < |s| ==> IsPhoneChar(s[k])
  }

  /** `^.{3,100}$`: `.` matches anything but a line terminator. */
  predicate SubjectMatches(s: string)
  {
    3 <= |s| <= 100 && forall k :: 0 <= k < |s| ==> !IsLineTerminator(s[k])
  }

  /** `^[\s\S]{10,2000}$`: any characters at all. */
  predicate MessageMatches(s: string)
  {
    10 <= |s| <= 2000
  }

  /** The keys of the pattern table. */
  datatype Rule = NameRule | EmailRule | PhoneRule | SubjectRule | MessageRule

  /** `patterns[input.name]`: the rule for an input name, if the table has one. */
  function RuleFor(inputName: string): Option<Rule>
  {
    match inputName
    case "name" => Some(NameRule)
    case "email" => Some(EmailRule)
    case "phone" => Some(PhoneRule)
    case "subject" => Some(SubjectRule)
    case "message" => Some(MessageRule)
    case _ => None
  }

  /** The pattern table has exactly the five field names as keys. */
  lemma RuleForKeys(inputName: string)
    ensures RuleFor(inputName).Some? <==> inputName in {"name", "email", "phone", "subject", "message"}
  {
  }

  /** `pattern.test(value)` */
  predicate Matches(rule: Rule, s: string)
  {
    match rule
    case NameRule => NameMatches(s)
    case EmailRule => EmailMatches(s)
    case PhoneRule => PhoneMatches(s)
    case SubjectRule => SubjectMatches(s)
    case MessageRule => MessageMatches(s)
  }

  /** `messages[input.name]`: the text shown under a field that fails its rule. */
  function ErrorMessage(rule: Rule): string
  {
    match rule
    case NameRule => "Please enter a valid name (2-50 characters)"
    case EmailRule => "Please enter a valid email address"
    case PhoneRule => "Please enter a valid phone number"
    case SubjectRule => "Subject must be 3-100 characters"
    case MessageRule => "Message must be 10-2000 characters"
  }

  /** The verdict `validateInput` reaches: an input whose name has no rule
      passes; otherwise the trimmed value must match the rule. */
  predicate Accepts(inputName: string, value: string)
  {
    match RuleFor(inputName)
    case None => true
    case Some(rule) => Matches(rule, Trim(value))
  }

  // ------------------------------------------------------------------
  // The email rule, restated without the regular expression's shape.

  predicate NoWhitespace(s: string)
  {
    forall k :: 0 <= k < |s| ==> !IsWhitespace(s[k])
  }

  /** No whitespace, exactly one '@', something before it, and a '.' after it
      that is neither the first nor the last character of the domain. */
  predicate EmailShape(s: string)
  {
    && NoWhitespace(s)
    && multiset(s)['@'] == 1
    && exists a, d | 0 < a < d < |s| - 1 :: s[a] == '@' && a + 1 < d && s[d] == '.'
  }

  lemma SplitMultiset(s: string, a: nat)
    requires a < |s|
    ensures multiset(s) == multiset(s[..a]) + multiset{s[a]} + multiset(s[a + 1..])
  {
    assert s == s[..a] + [s[a]] + s[a + 1..];
  }

  /** With exactly one '@' in `s`, found at `a`, no other position holds '@'. */
  lemma {:induction false} OnlyAt(s: string, a: nat)
    requires a < |s| && s[a] == '@' && multiset(s)['@'] == 1
    ensures forall k :: 0 <= k < |s| && k != a ==> s[k] != '@'
  {
    SplitMultiset(s, a);
    forall k | 0 <= k < |s| && k != a
      ensures s[k] != '@'
    {
      if k < a {
        assert s[k] in multiset(s[..a]) by { assert s[..a][k] == s[k]; }
      } else {
        assert s[k] in multiset(s[a + 1..]) by { assert s[a + 1..][k - a - 1] == s[k]; }
      }
    }
  }

  lemma NoAtCount(p: string)
    requires forall k :: 0 <= k < |p| ==> p[k] != '@'
    ensures multiset(p)['@'] == 0
  {
  }

  /** The three runs of an accepted address, and the '@' and '.' between them. */
  predicate EmailSplit(s: string, a: nat, d: nat)
  {
    0 < a < d < |s| && s[a] == '@' && s[d] == '.'
    && EmailPart(s[..a]) && EmailPart(s[a + 1..d]) && EmailPart(s[d + 1..])
  }

  lemma {:induction false} EmailSplitNoWhitespace(s: string, a: nat, d: nat)
    requires EmailSplit(s, a, d)
    ensures NoWhitespace(s)
  {
    forall k | 0 <= k < |s|
      ensures !IsWhitespace(s[k])
    {
      if k < a {
        assert s[..a][k] == s[k];
      } else if a < k < d {
        assert s[a + 1..d][k - a - 1] == s[k];
      } else if d < k {
        assert s[d + 1..][k - d - 1] == s[k];
      }
    }
  }

  lemma {:induction false} EmailSplitOneAt(s: string, a: nat, d: nat)
    requires EmailSplit(s, a, d)
    ensures multiset(s)['@'] == 1
  {
    var rest := s[a + 1..];
    SplitMultiset(s, a);
    SplitMultiset(rest, d - a - 1);
    assert rest[..d - a - 1] == s[a + 1..d];
    assert rest[d - a..] == s[d + 1..];
    NoAtCount(s[..a]);
    NoAtCount(s[a + 1..d]);
    NoAtCount(s[d + 1..]);
  }

  /** Every string the email pattern accepts has that shape. */
  lemma {:induction false} EmailMatchesHasShape(s: string)
    requires EmailMatches(s)
    ensures EmailShape(s)
  {
    var a, d :| 0 < a < d < |s| && s[a] == '@' && s[d] == '.'
               && EmailPart(s[..a]) && EmailPart(s[a + 1..d]) && EmailPart(s[d + 1..]);
    assert EmailSplit(s, a, d);
    EmailSplitNoWhitespace(s, a, d);
    EmailSplitOneAt(s, a, d);
    assert s[a + 1..d] != [] && s[d + 1..] != [];
  }

  /** Every string of that shape is accepted by the email pattern. */
  lemma {:induction false} EmailShapeMatches(s: string)
    requires EmailShape(s)
    ensures EmailMatches(s)
  {
    var a, d :| 0 < a < d < |s| - 1 && s[a] == '@' && a + 1 < d && s[d] == '.';
    OnlyAt(s, a);
    assert EmailPart(s[..a]);
    assert EmailPart(s[a + 1..d]);
    assert EmailPart(s[d + 1..]);
  }

  /** The email pattern accepts exactly the strings of that shape. */
  lemma EmailMatchesIffShape(s: string)
    ensures EmailMatches(s) <==> EmailShape(s)
  {
    if EmailMatches(s) {
      EmailMatchesHasShape(s);
    }
    if EmailShape(s) {
      EmailShapeMatches(s);
    }
  }

  /** An address with no '@' is refused. */
  lemma EmailNeedsAt(s: string)
    requires forall k :: 0 <= k < |s| ==> s[k] != '@'
    ensures !EmailMatches(s)
  {
  }

  /** An address with no '.' after its '@' is refused. */
  lemma EmailNeedsDomainDot(s: string)
    requires forall a, d :: 0 <= a < d < |s| && s[a] == '@' ==> s[d] != '.'
    ensures !EmailMatches(s)
  {
  }

  /** The message rule depends only on the trimmed length. */
  lemma MessageAcceptsIffLength(value: string)
    ensures Accepts("message", value) <==> 10 <= |Trim(value)| <= 2000
  {
  }
}
