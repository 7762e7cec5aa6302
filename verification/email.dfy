/** The email format check of the signup endpoint: the regular expression
    `^[^\s@]+@[^\s@]+\.[^\s@]+$`, tested against the whole string.

    `MatchesEmailRegex` is the language of that expression, written as the split
    `a + "@" + b + "." + c`; `ValidateEmail` is a direct, executable
    characterisation of the same strings. `ValidateEmailIffRegex` proves the two
    equal.
 */
module EmailValidator {

  /** ECMAScript `\s`: the WhiteSpace code points (tab, vertical tab, form feed,
      no-break space, byte order mark and the Unicode space separators) and the
      LineTerminator code points. */
  predicate IsSpace(c: char) {
    || c == '\t' || c == '\n' || c == '\U{000B}' || c == '\U{000C}' || c == '\r'
    || c == ' ' || c == '\U{00A0}' || c == '\U{1680}'
    || ('\U{2000}' <= c <= '\U{200A}')
    || c == '\U{2028}' || c == '\U{2029}' || c == '\U{202F}' || c == '\U{205F}'
    || c == '\U{3000}' || c == '\U{FEFF}'
  }

  /** The character class `[^\s@]`. */
  predicate IsAtomChar(c: char) {
    !IsSpace(c) && c != '@'
  }

  /** The repetition `[^\s@]+`. */
  predicate IsAtom(t: string) {
    |t| > 0 && forall i :: 0 <= i < |t| ==> IsAtomChar(t[i])
  }

  /** The strings the anchored regular expression accepts. */
  ghost predicate MatchesEmailRegex(s: string) {
    exists a, b, c :: IsAtom(a) && IsAtom(b) && IsAtom(c) && s == a + "@" + b + "." + c
  }

  /** Position of the first occurrence of `ch` in `s`. */
  function IndexOf(s: string, ch: char): (k: nat)
    requires ch in s
    ensures k < |s| && s[k] == ch
    ensures forall i :: 0 <= i < k ==> s[i] != ch
  {
    if s[0] == ch then 0 else 1 + IndexOf(s[1..], ch)
  }

  predicate NoSpace(s: string) {
    forall i :: 0 <= i < |s| ==> !IsSpace(s[i])
  }

  /** The domain `d` holds a '.' that is neither its first nor its last character. */
  predicate HasInnerDot(d: string) {
    exists j :: 0 < j < |d| - 1 && d[j] == '.'
  }

  /** The validator: no whitespace anywhere, exactly one '@' and not at the front,
      and a '.' strictly inside the part after the '@'. */
  predicate ValidateEmail(s: string) {
    && NoSpace(s)
    && '@' in s
    && var k := IndexOf(s, '@');
       && 0 < k
       && '@' !in s[k + 1..]
       && HasInnerDot(s[k + 1..])
  }

  /** Where the characters of `a + "@" + b + "." + c` come from, for three atoms. */
  lemma SplitShape(a: string, b: string, c: string)
    requires IsAtom(a) && IsAtom(b) && IsAtom(c)
    ensures var t := a + "@" + b + "." + c;
      && NoSpace(t)
      && t[|a|] == '@'
      && t[|a| + 1 + |b|] == '.'
      && (forall i :: 0 <= i < |t| && t[i] == '@' ==> i == |a|)
  {
  }

  /** The `a + "@" + b + "." + c` half: every `local@domain.tld` whose three parts
      are non-empty and free of whitespace and '@' passes the validator, however
      many dots the parts hold. */
  lemma RegexImpliesValid(s: string, a: string, b: string, c: string)
    requires IsAtom(a) && IsAtom(b) && IsAtom(c)
    requires s == a + "@" + b + "." + c
    ensures ValidateEmail(s)
  {
    SplitShape(a, b, c);
    var d := b + "." + c;
    assert s == a + "@" + d;
    var k := IndexOf(s, '@');
    assert k == |a|;
    assert s[k + 1..] == d;
    assert d[|b|] == '.';
    forall i | 0 <= i < |d|
      ensures d[i] != '@'
    {
      assert d[i] == s[k + 1 + i];
    }
  }

  /** The converse half: a string that passes the validator splits as the regex demands. */
  lemma ValidImpliesRegex(s: string)
    requires ValidateEmail(s)
    ensures MatchesEmailRegex(s)
  {
    var k := IndexOf(s, '@');
    var d := s[k + 1..];
    var j :| 0 < j < |d| - 1 && d[j] == '.';
    var a, b, c := s[..k], d[..j], d[j + 1..];
    assert IsAtom(a) by {
      forall i | 0 <= i < |a|
        ensures IsAtomChar(a[i])
      {
        assert a[i] == s[i];
        assert a[i] in s[..k];
      }
    }
    assert IsAtom(b) by {
      forall i | 0 <= i < |b|
        ensures IsAtomChar(b[i])
      {
        assert b[i] == d[i] == s[k + 1 + i];
        assert b[i] in d;
      }
    }
    assert IsAtom(c) by {
      forall i | 0 <= i < |c|
        ensures IsAtomChar(c[i])
      {
        assert c[i] == d[j + 1 + i] == s[k + 1 + j + 1 + i];
        assert c[i] in d;
      }
    }
    assert d == b + "." + c;
    assert s == a + [s[k]] + d;
    assert s == a + "@" + b + "." + c;
  }

  /** The validator accepts exactly the strings the regular expression matches. */
  lemma ValidateEmailIffRegex(s: string)
    ensures ValidateEmail(s) <==> MatchesEmailRegex(s)
  {
    if MatchesEmailRegex(s) {
      var a, b, c :| IsAtom(a) && IsAtom(b) && IsAtom(c) && s == a + "@" + b + "." + c;
      RegexImpliesValid(s, a, b, c);
    }
    if ValidateEmail(s) {
      ValidImpliesRegex(s);
    }
  }

  /** The empty string is rejected. */
  lemma RejectsEmpty()
    ensures !MatchesEmailRegex("")
  {
  }

  /** A string without '@' is rejected. */
  lemma RejectsWithoutAt(s: string)
    requires '@' !in s
    ensures !MatchesEmailRegex(s)
  {
  }

  /** A string with two '@' is rejected. */
  lemma RejectsTwoAts(s: string, i: nat, j: nat)
    requires i < j < |s| && s[i] == '@' && s[j] == '@'
    ensures !MatchesEmailRegex(s)
  {
  }

  /** A string in which no '.' stands strictly inside the part after an '@' (at
      least one character after it and at least one before the end) is rejected. */
  lemma RejectsWithoutInnerDot(s: string)
    requires forall i, j :: 0 <= i && i + 1 < j < |s| - 1 && s[i] == '@' ==> s[j] != '.'
    ensures !MatchesEmailRegex(s)
  {
    forall a, b, c | IsAtom(a) && IsAtom(b) && IsAtom(c)
      ensures s != a + "@" + b + "." + c
    {
      SplitShape(a, b, c);
    }
  }
}
