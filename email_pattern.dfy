/**
 * The e-mail check both client forms run before submitting:
 * `/^[^\s@]+@[^\s@]+\.[^\s@]+$/.test(email)`.
 *
 * `MatchesEmailRegex` follows the pattern piece by piece; `HasEmailShape` is
 * the plain-words description of the addresses it accepts. `EmailRegexShape`
 * proves the two agree on every string, so the forms may be read either way.
 */
module EmailPattern {

  /** JavaScript's `\s`: the ECMAScript WhiteSpace and LineTerminator code points. */
  predicate IsSpace(c: char)
    ensures IsSpace(c) ==> c != '@' && c != '.'
    ensures c in {' ', '\t', '\n', '\r'} ==> IsSpace(c)
  {
    var n := c as int;
    || n == 0x09 || n == 0x0A || n == 0x0B || n == 0x0C || n == 0x0D
    || n == 0x20 || n == 0xA0 || n == 0x1680
    || (0x2000 <= n <= 0x200A)
    || n == 0x2028 || n == 0x2029 || n == 0x202F || n == 0x205F
    || n == 0x3000 || n == 0xFEFF
  }

  /** The character class `[^\s@]`. */
  predicate InClass(c: char) {
    !IsSpace(c) && c != '@'
  }

  /** `[^\s@]+` matches all of `s`. */
  predicate ClassPlus(s: string) {
    |s| > 0 && forall k | 0 <= k < |s| :: InClass(s[k])
  }

  /**
   * The anchored pattern matches `s`: `s` is `[^\s@]+`, then `@` at index
   * `at`, then `[^\s@]+`, then `.` at index `dot`, then `[^\s@]+`.
   */
  predicate MatchesEmailRegex(s: string)
    ensures MatchesEmailRegex(s) ==> |s| >= 5 && '@' in s && '.' in s
  {
    exists at, dot | 0 <= at < |s| && at < dot < |s| ::
      && ClassPlus(s[..at])
      && s[at] == '@'
      && ClassPlus(s[at + 1..dot])
      && s[dot] == '.'
      && ClassPlus(s[dot + 1..])
  }

  /** Number of occurrences of `c` in `s`. */
  function Occurrences(s: string, c: char): nat {
    if s == [] then 0 else (if s[0] == c then 1 else 0) + Occurrences(s[1..], c)
  }

  predicate NoSpace(s: string) {
    forall k | 0 <= k < |s| :: !IsSpace(s[k])
  }

  /**
   * An address of the form local@domain: no whitespace anywhere, exactly one
   * '@', a non-empty local part, and a '.' in the domain that is neither the
   * domain's first nor its last character.
   */
  predicate HasEmailShape(s: string) {
    && NoSpace(s)
    && Occurrences(s, '@') == 1
    && exists at, dot | 0 < at < |s| && at + 1 < dot < |s| - 1 :: s[at] == '@' && s[dot] == '.'
  }

  lemma {:induction false} OccurrencesAppend(a: string, b: string, c: char)
    ensures Occurrences(a + b, c) == Occurrences(a, c) + Occurrences(b, c)
  {
    if a == [] {
      assert a + b == b;
    } else {
      assert (a + b)[1..] == a[1..] + b;
      OccurrencesAppend(a[1..], b, c);
    }
  }

  lemma {:induction false} OccurrencesZero(s: string, c: char)
    ensures Occurrences(s, c) == 0 <==> forall k | 0 <= k < |s| :: s[k] != c
  {
    if s != [] {
      OccurrencesZero(s[1..], c);
      assert forall k | 1 <= k < |s| :: s[k] == s[1..][k - 1];
    }
  }

  /** Splitting `s` around index `i`: the occurrences before, at and after `i`. */
  lemma OccurrencesAround(s: string, i: nat, c: char)
    requires i < |s|
    ensures Occurrences(s, c) == Occurrences(s[..i], c) + (if s[i] == c then 1 else 0) + Occurrences(s[i + 1..], c)
  {
    assert s == s[..i] + ([s[i]] + s[i + 1..]);
    OccurrencesAppend(s[..i], [s[i]] + s[i + 1..], c);
    OccurrencesAppend([s[i]], s[i + 1..], c);
    assert [s[i]][1..] == [];
  }

  /** The pieces the pattern names carry no whitespace, and neither do '@' and '.'. */
  lemma PiecesHaveNoSpace(s: string, at: nat, dot: nat)
    requires at < dot < |s| && s[at] == '@' && s[dot] == '.'
    requires ClassPlus(s[..at]) && ClassPlus(s[at + 1..dot]) && ClassPlus(s[dot + 1..])
    ensures NoSpace(s)
  {
    forall k | 0 <= k < |s| ensures !IsSpace(s[k]) {
      if k < at {
        assert s[k] == s[..at][k];
      } else if at < k < dot {
        assert s[k] == s[at + 1..dot][k - at - 1];
      } else if dot < k {
        assert s[k] == s[dot + 1..][k - dot - 1];
      }
    }
  }

  lemma RegexImpliesShape(s: string)
    requires MatchesEmailRegex(s)
    ensures HasEmailShape(s)
  {
    var at, dot :| 0 <= at < |s| && at < dot < |s|
      && ClassPlus(s[..at]) && s[at] == '@' && ClassPlus(s[at + 1..dot])
      && s[dot] == '.' && ClassPlus(s[dot + 1..]);
    PiecesHaveNoSpace(s, at, dot);
    OccurrencesZero(s[..at], '@');
    OccurrencesZero(s[at + 1..dot], '@');
    OccurrencesZero(s[dot + 1..], '@');
    assert s[at + 1..] == s[at + 1..dot] + ([s[dot]] + s[dot + 1..]);
    OccurrencesAppend(s[at + 1..dot], [s[dot]] + s[dot + 1..], '@');
    OccurrencesAppend([s[dot]], s[dot + 1..], '@');
    assert [s[dot]][1..] == [];
    OccurrencesAround(s, at, '@');
    assert 0 < at && at + 1 < dot < |s| - 1;
  }

  lemma ShapeImpliesRegex(s: string)
    requires HasEmailShape(s)
    ensures MatchesEmailRegex(s)
  {
    var at, dot :| 0 < at < |s| && at + 1 < dot < |s| - 1 && s[at] == '@' && s[dot] == '.';
    OccurrencesAround(s, at, '@');
    OccurrencesZero(s[..at], '@');
    OccurrencesZero(s[at + 1..], '@');
    forall k | 0 <= k < |s| && k != at ensures InClass(s[k]) {
      if k < at {
        assert s[k] == s[..at][k];
      } else {
        assert s[k] == s[at + 1..][k - at - 1];
      }
    }
    assert ClassPlus(s[..at]);
    assert ClassPlus(s[at + 1..dot]);
    assert ClassPlus(s[dot + 1..]);
  }

  /** The pattern accepts exactly the strings of the documented shape. */
  lemma EmailRegexShape(s: string)
    ensures MatchesEmailRegex(s) <==> HasEmailShape(s)
  {
    if MatchesEmailRegex(s) {
      RegexImpliesShape(s);
    }
    if HasEmailShape(s) {
      ShapeImpliesRegex(s);
    }
  }

}
