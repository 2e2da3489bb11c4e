/** The password policy shared by the server (backend/routes/users.js:164) and
    the change-password page (frontend/src/pages/ChangePassword.jsx:8): both
    test the same regular expression

      ^(?=.*[a-z])(?=.*[A-Z])(?=.*\d)(?=.*[@$!%*?&]).{8,}$

    with no flags. Without the `s` flag `.` matches every character except the
    four ECMAScript line terminators; without the `m` flag `$` matches only at
    the end of the input. The page's per-rule checklist tests the character
    classes on their own (`/[A-Z]/.test(...)`) and the length with `.length`. */
module PasswordPolicy {

  /** `passwordPolicy.minLength`, and the 8 in `.{8,}`. */
  const MinLength: nat := 8

  /** The characters of the class `[@$!%*?&]`. */
  const Specials: string := "@$!%*?&"

  /** The four character classes the expression looks ahead for. */
  datatype CharClass = Lower | Upper | Digit | Special

  predicate InClass(k: CharClass, c: char)
  {
    match k
    case Lower => 'a' <= c <= 'z'
    case Upper => 'A' <= c <= 'Z'
    case Digit => '0' <= c <= '9'
    case Special => c in Specials
  }

  /** The characters `.` does not match: line feed, carriage return, line
      separator and paragraph separator. */
  predicate IsLineTerminator(c: char)
  {
    c == '\n' || c == '\r' || c == '\U{2028}' || c == '\U{2029}'
  }

  predicate HasNoLineTerminator(s: string)
  {
    forall i :: 0 <= i < |s| ==> !IsLineTerminator(s[i])
  }

  /** `/[a-z]/.test(s)` and its siblings: some character of s is in class k. */
  predicate Contains(s: string, k: CharClass)
  {
    exists i :: 0 <= i < |s| && InClass(k, s[i])
  }

  /** The lookahead `(?=.*[k])` at the start of s, as the matcher runs it: the
      class is found at the current character, or `.` consumes the current
      character and the search goes on. */
  function LookaheadFinds(s: string, k: CharClass): bool
  {
    if s == [] then false
    else InClass(k, s[0]) || (!IsLineTerminator(s[0]) && LookaheadFinds(s[1..], k))
  }

  /** `.{n,}$` at the start of s: every remaining character is matched by `.`
      and at least n of them remain. */
  function DotsToEnd(s: string, n: nat): bool
  {
    if s == [] then n == 0
    else !IsLineTerminator(s[0]) && DotsToEnd(s[1..], if n == 0 then 0 else n - 1)
  }

  /** `policyRegex.test(s)`: the four lookaheads and the length run, all
      anchored at the start of s. An accepted password has at least
      MinLength characters, no line terminator and a character of each
      class (AcceptsMeaning gives the converse). */
  predicate Accepts(s: string)
    ensures Accepts(s) ==> |s| >= MinLength && HasNoLineTerminator(s)
    ensures Accepts(s) ==> Contains(s, Lower) && Contains(s, Upper) && Contains(s, Digit) && Contains(s, Special)
  {
    DotsToEndMeaning(s, MinLength);
    LookaheadFindsMeaning(s, Lower);
    LookaheadFindsMeaning(s, Upper);
    LookaheadFindsMeaning(s, Digit);
    LookaheadFindsMeaning(s, Special);
    LookaheadFinds(s, Lower) && LookaheadFinds(s, Upper) && LookaheadFinds(s, Digit) && LookaheadFinds(s, Special)
    && DotsToEnd(s, MinLength)
  }

  /** The lookahead succeeds exactly when some character of the class is
      preceded only by characters that `.` matches. */
  lemma {:induction false} LookaheadFindsMeaning(s: string, k: CharClass)
    ensures LookaheadFinds(s, k) <==>
            exists i :: 0 <= i < |s| && InClass(k, s[i]) && HasNoLineTerminator(s[..i])
  {
    if s == [] {
    } else {
      LookaheadFindsMeaning(s[1..], k);
      if LookaheadFinds(s, k) {
        if InClass(k, s[0]) {
          assert s[..0] == [];
          assert InClass(k, s[0]) && HasNoLineTerminator(s[..0]);
        } else {
          var j :| 0 <= j < |s[1..]| && InClass(k, s[1..][j]) && HasNoLineTerminator(s[1..][..j]);
          assert s[..j + 1] == [s[0]] + s[1..][..j];
          assert InClass(k, s[j + 1]) && HasNoLineTerminator(s[..j + 1]);
        }
      } else {
        forall i | 0 <= i < |s| && InClass(k, s[i])
          ensures !HasNoLineTerminator(s[..i])
        {
          if i == 0 {
          } else if !IsLineTerminator(s[0]) {
            assert s[1..][..i - 1] == s[1..i];
            assert InClass(k, s[1..][i - 1]);
            assert !HasNoLineTerminator(s[1..][..i - 1]);
            var m :| 0 <= m < i - 1 && IsLineTerminator(s[1..][..i - 1][m]);
            assert s[..i][m + 1] == s[1..][..i - 1][m];
          } else {
            assert s[..i][0] == s[0];
          }
        }
      }
    }
  }

  /** The length run succeeds exactly when s has at least n characters and no
      line terminator. */
  lemma {:induction false} DotsToEndMeaning(s: string, n: nat)
    ensures DotsToEnd(s, n) <==> |s| >= n && HasNoLineTerminator(s)
  {
    if s != [] {
      DotsToEndMeaning(s[1..], if n == 0 then 0 else n - 1);
      if HasNoLineTerminator(s) {
        assert HasNoLineTerminator(s[1..]) by {
          forall i | 0 <= i < |s[1..]| ensures !IsLineTerminator(s[1..][i]) {
            assert s[1..][i] == s[i + 1];
          }
        }
      } else if !IsLineTerminator(s[0]) {
        var i :| 0 <= i < |s| && IsLineTerminator(s[i]);
        assert s[1..][i - 1] == s[i];
      }
    }
  }

  /** What the regular expression accepts, rule by rule: at least MinLength
      characters, no line terminator, and a lowercase letter, an uppercase
      letter, a digit and one of `@$!%*?&` somewhere. */
  lemma AcceptsMeaning(s: string)
    ensures Accepts(s) <==>
            && |s| >= MinLength
            && HasNoLineTerminator(s)
            && Contains(s, Lower)
            && Contains(s, Upper)
            && Contains(s, Digit)
            && Contains(s, Special)
  {
    DotsToEndMeaning(s, MinLength);
    LookaheadFindsMeaning(s, Lower);
    LookaheadFindsMeaning(s, Upper);
    LookaheadFindsMeaning(s, Digit);
    LookaheadFindsMeaning(s, Special);
    if HasNoLineTerminator(s) {
      forall k: CharClass | Contains(s, k)
        ensures exists i :: 0 <= i < |s| && InClass(k, s[i]) && HasNoLineTerminator(s[..i])
      {
        var i :| 0 <= i < |s| && InClass(k, s[i]);
        assert HasNoLineTerminator(s[..i]) by {
          forall j | 0 <= j < |s[..i]| ensures !IsLineTerminator(s[..i][j]) {
            assert s[..i][j] == s[j];
          }
        }
      }
    }
  }
}
