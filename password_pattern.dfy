/**
 * The complexity pattern both validators match a password against,
 *   ^(?=.*[a-z])(?=.*[A-Z])(?=.*\d)(?=.*[@$!%*?&])[A-Za-z\d@$!%*?&]{8,}$
 * written twice: once shaped like the regular expression (four lookaheads and an anchored
 * repetition), once as plain statements about the characters, with a proof that they agree.
 */
module PasswordPattern {

  /** The character classes of the pattern. `\d` is ASCII 0-9 (Java's default). */
  datatype CharClass = LowerCase | UpperCase | Digit | Special | Allowed

  const SpecialChars := "@$!%*?&"

  predicate InClass(c: char, k: CharClass) {
    match k
    case LowerCase => 'a' <= c <= 'z'
    case UpperCase => 'A' <= c <= 'Z'
    case Digit => '0' <= c <= '9'
    case Special => c in SpecialChars
    case Allowed => ('a' <= c <= 'z') || ('A' <= c <= 'Z') || ('0' <= c <= '9') || c in SpecialChars
  }

  /** The line terminators, which `.` does not match unless DOTALL is set. */
  predicate IsLineTerminator(c: char) {
    c == '\n' || c == '\r' || c == '\U{0085}' || c == '\U{2028}' || c == '\U{2029}'
  }

  /** `(?=.*[k])` at the start of `s`: skipping chars other than line terminators, one of class `k`
      follows. */
  predicate LookaheadFinds(s: string, k: CharClass) {
    s != [] && (InClass(s[0], k) || (!IsLineTerminator(s[0]) && LookaheadFinds(s[1..], k)))
  }

  /** `[k]{n,}$` at the start of `s`: at least `n` chars of class `k`, then the end. */
  predicate RepeatsToEnd(s: string, k: CharClass, n: nat) {
    if s == [] then n == 0
    else InClass(s[0], k) && RepeatsToEnd(s[1..], k, if n == 0 then 0 else n - 1)
  }

  /** String.matches of the whole pattern. */
  predicate MatchesPattern(s: string) {
    && LookaheadFinds(s, LowerCase)
    && LookaheadFinds(s, UpperCase)
    && LookaheadFinds(s, Digit)
    && LookaheadFinds(s, Special)
    && RepeatsToEnd(s, Allowed, 8)
  }

  /** Some char of `s` is of class `k`. */
  predicate Contains(s: string, k: CharClass) {
    exists i :: 0 <= i < |s| && InClass(s[i], k)
  }

  /** Every char of `s` is of class `k`. */
  predicate ConsistsOf(s: string, k: CharClass) {
    forall i :: 0 <= i < |s| ==> InClass(s[i], k)
  }

  /** The character rules in words: only letters, digits and @$!%*?&, with at least one lower-case
      letter, one upper-case letter, one digit and one special character. */
  predicate MeetsCharacterRules(s: string) {
    && ConsistsOf(s, Allowed)
    && Contains(s, LowerCase)
    && Contains(s, UpperCase)
    && Contains(s, Digit)
    && Contains(s, Special)
  }

  /** No char of `s` is a line terminator. */
  predicate OnOneLine(s: string) {
    forall i :: 0 <= i < |s| ==> !IsLineTerminator(s[i])
  }

  /** The lookahead succeeds exactly when a char of class `k` occurs before the first line
      terminator. */
  lemma {:induction false} LookaheadFindsIffFirstLineContains(s: string, k: CharClass)
    ensures LookaheadFinds(s, k) <==> exists i :: 0 <= i < |s| && InClass(s[i], k) && OnOneLine(s[..i])
  {
    if s != [] {
      var t := s[1..];
      LookaheadFindsIffFirstLineContains(t, k);
      if LookaheadFinds(s, k) {
        if InClass(s[0], k) {
          assert OnOneLine(s[..0]);
        } else {
          var j :| 0 <= j < |t| && InClass(t[j], k) && OnOneLine(t[..j]);
          assert s[..j + 1] == [s[0]] + t[..j];
          assert InClass(s[j + 1], k) && OnOneLine(s[..j + 1]);
        }
      }
      forall i | 0 < i < |s| && InClass(s[i], k) && OnOneLine(s[..i]) ensures LookaheadFinds(s, k) {
        assert s[..i][0] == s[0];
        assert t[..i - 1] == s[..i][1..];
        assert InClass(t[i - 1], k);
      }
    }
  }

  /** On a string without line terminators, the lookahead succeeds exactly when some char is of
      class `k`. */
  lemma LookaheadFindsIffContains(s: string, k: CharClass)
    requires OnOneLine(s)
    ensures LookaheadFinds(s, k) <==> Contains(s, k)
  {
    LookaheadFindsIffFirstLineContains(s, k);
    if Contains(s, k) {
      var i :| 0 <= i < |s| && InClass(s[i], k);
      assert OnOneLine(s[..i]);
    }
  }

  /** A line terminator hides what follows it from the lookahead: "\na" has a lower-case letter,
      yet `(?=.*[a-z])` fails on it. */
  lemma LineTerminatorHidesClass()
    ensures Contains("\na", LowerCase) && !LookaheadFinds("\na", LowerCase)
  {
    assert InClass("\na"[1], LowerCase);
    assert "\na"[1..] == "a";
  }

  /** Only allowed chars means no line terminator. */
  lemma AllowedIsOnOneLine(s: string)
    requires ConsistsOf(s, Allowed)
    ensures OnOneLine(s)
  {
    forall i | 0 <= i < |s| ensures !IsLineTerminator(s[i]) {
      assert InClass(s[i], Allowed);
    }
  }

  lemma {:induction false} RepeatsToEndIffConsistsOf(s: string, k: CharClass, n: nat)
    ensures RepeatsToEnd(s, k, n) <==> n <= |s| && ConsistsOf(s, k)
  {
    if s != [] {
      RepeatsToEndIffConsistsOf(s[1..], k, if n == 0 then 0 else n - 1);
      if ConsistsOf(s, k) {
        assert forall i :: 0 <= i < |s[1..]| ==> s[1..][i] == s[i + 1];
      }
      if InClass(s[0], k) && ConsistsOf(s[1..], k) {
        forall i | 0 <= i < |s| ensures InClass(s[i], k) {
          if i > 0 {
            assert s[i] == s[1..][i - 1];
          }
        }
      }
    }
  }

  /** The regular expression accepts exactly the strings of at least 8 chars that meet the
      character rules. */
  lemma PatternIffRules(s: string)
    ensures MatchesPattern(s) <==> 8 <= |s| && MeetsCharacterRules(s)
  {
    RepeatsToEndIffConsistsOf(s, Allowed, 8);
    if ConsistsOf(s, Allowed) {
      AllowedIsOnOneLine(s);
      LookaheadFindsIffContains(s, LowerCase);
      LookaheadFindsIffContains(s, UpperCase);
      LookaheadFindsIffContains(s, Digit);
      LookaheadFindsIffContains(s, Special);
    }
  }
}
