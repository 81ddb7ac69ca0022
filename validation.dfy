/**
 The sign-up form validators of `src/utils/validation.ts`: e-mail, username
 and password guard chains that return the first failing message or `null`,
 and the weighted password-strength score.
 */
module Validation {
  import opened JsText

  const EmailRequired := "Email is required"
  const EmailMalformed := "Please enter a valid email address"
  const EmailDoubleDot := "Invalid email format"
  const EmailLocalTooShort := "Email username is too short"

  const UsernameRequired := "Username is required"
  const UsernameTooShort := "Username must be at least 3 characters"
  const UsernameTooLong := "Username must be less than 20 characters"
  const UsernameBadChars := "Username can only contain letters, numbers, and underscores"

  const PasswordRequired := "Password is required"
  const PasswordTooShort := "Password must be at least 8 characters"
  const PasswordNoUpper := "Password must contain at least one uppercase letter"
  const PasswordNoLower := "Password must contain at least one lowercase letter"
  const PasswordNoDigit := "Password must contain at least one number"
  const PasswordNoSpecial := "Password must contain at least one special character"

  // ---------------------------------------------------------------------------
  // E-mail
  // ---------------------------------------------------------------------------

  /** `[^\s@]` */
  predicate IsEmailChar(c: char)
  {
    !IsWhitespace(c) && c != '@'
  }

  /**
   `/^[^\s@]+@[^\s@]+\.[^\s@]+$/` matches with its '@' at index `at` and its
   escaped '.' at index `dot`: three non-empty runs of `[^\s@]` around them.
   */
  predicate PatternMatchAt(email: string, at: int, dot: int)
  {
    0 < at && at + 1 < dot && dot + 1 < |email| && email[at] == '@' && email[dot] == '.' &&
    forall k :: 0 <= k < |email| && k != at ==> IsEmailChar(email[k])
  }

  /** `/^[^\s@]+@[^\s@]+\.[^\s@]+$/.test(email)` */
  ghost predicate MatchesEmailPattern(email: string)
  {
    exists at, dot :: PatternMatchAt(email, at, dot)
  }

  /** How many times `c` occurs in `s`. */
  function CountOf(s: string, c: char): nat
  {
    if s == [] then 0 else (if s[0] == c then 1 else 0) + CountOf(s[1..], c)
  }

  lemma {:induction false} CountOfZero(s: string, c: char)
    ensures CountOf(s, c) == 0 <==> c !in s
  {
    if s != [] {
      CountOfZero(s[1..], c);
      assert s == [s[0]] + s[1..];
    }
  }

  lemma {:induction false} CountOfSplit(s: string, i: int, c: char)
    requires 0 <= i <= |s|
    ensures CountOf(s, c) == CountOf(s[..i], c) + CountOf(s[i..], c)
  {
    if i > 0 {
      assert s[1..][..i - 1] == s[1..i] && s[1..][i - 1..] == s[i..];
      CountOfSplit(s[1..], i - 1, c);
      assert s[..i][1..] == s[1..i];
    } else {
      assert s[..i] == [] && s[i..] == s;
    }
  }

  /** `s.split(sep)[0]`: the text before the first `sep`, or all of `s`. */
  function SplitFirst(s: string, sep: char): (r: string)
    ensures r <= s && sep !in r
    ensures |r| < |s| ==> s[|r|] == sep
  {
    if s == [] || s[0] == sep then [] else [s[0]] + SplitFirst(s[1..], sep)
  }

  /** The text before the first `sep` is the prefix up to any `sep` that has none before it. */
  lemma SplitFirstAt(s: string, sep: char, i: int)
    requires 0 <= i < |s| && s[i] == sep && sep !in s[..i]
    ensures SplitFirst(s, sep) == s[..i]
  {
  }

  /**
   The e-mail pattern spelled out: exactly one '@', no whitespace, a
   non-empty local part, and a '.' in the domain that is neither its first
   nor its last character.
   */
  predicate WellFormedEmail(email: string)
  {
    CountOf(email, '@') == 1 &&
    (forall k :: 0 <= k < |email| ==> !IsWhitespace(email[k])) &&
    var local := SplitFirst(email, '@');
    var domain := if |local| < |email| then email[|local| + 1..] else "";
    |local| > 0 && exists k :: 0 < k < |domain| - 1 && domain[k] == '.'
  }

  /** Every address the regular expression matches has the spelled-out shape. */
  lemma PatternIsWellFormed(email: string)
    requires MatchesEmailPattern(email)
    ensures WellFormedEmail(email)
  {
    var at, dot :| PatternMatchAt(email, at, dot);
    assert '@' !in email[..at] by {
      forall k | 0 <= k < at ensures email[..at][k] != '@' {
        assert IsEmailChar(email[k]);
      }
    }
    assert '@' !in email[at + 1..] by {
      forall k | at + 1 <= k < |email| ensures email[k] != '@' {
        assert IsEmailChar(email[k]);
      }
    }
    CountOfSplit(email, at, '@');
    CountOfZero(email[..at], '@');
    CountOfZero(email[at + 1..], '@');
    assert email[at..][1..] == email[at + 1..];
    SplitFirstAt(email, '@', at);
    var domain := email[at + 1..];
    assert domain[dot - at - 1] == '.';
    forall k | 0 <= k < |email| ensures !IsWhitespace(email[k]) {
      if k != at {
        assert IsEmailChar(email[k]);
      }
    }
  }

  /** Every address of the spelled-out shape matches the regular expression. */
  lemma WellFormedMatchesPattern(email: string)
    requires WellFormedEmail(email)
    ensures MatchesEmailPattern(email)
  {
    var local := SplitFirst(email, '@');
    var at := |local|;
    assert local == email[..at];
    var domain := email[at + 1..];
    var k :| 0 < k < |domain| - 1 && domain[k] == '.';
    CountOfSplit(email, at, '@');
    CountOfZero(email[..at], '@');
    assert email[at..][1..] == email[at + 1..];
    CountOfZero(email[at + 1..], '@');
    forall j | 0 <= j < |email| && j != at ensures IsEmailChar(email[j]) {
      if j < at {
        assert email[j] == local[j];
      } else {
        assert email[j] == email[at + 1..][j - at - 1];
      }
    }
    assert PatternMatchAt(email, at, at + 1 + k);
  }

  /** The spelled-out shape and the regular expression accept the same addresses. */
  lemma EmailPatternIsWellFormed(email: string)
    ensures MatchesEmailPattern(email) <==> WellFormedEmail(email)
  {
    if MatchesEmailPattern(email) {
      PatternIsWellFormed(email);
    }
    if WellFormedEmail(email) {
      WellFormedMatchesPattern(email);
    }
  }

  /**
   `validateEmail`: required, then the pattern, then no "..", then at least
   two characters before the '@'.
   */
  function ValidateEmail(email: string): Option<string>
  {
    if email == "" then Some(EmailRequired)
    else if !WellFormedEmail(email) then Some(EmailMalformed)
    else if Includes(email, "..") then Some(EmailDoubleDot)
    else if JsLength(SplitFirst(email, '@')) < 2 then Some(EmailLocalTooShort)
    else None
  }

  /**
   Each message of `validateEmail` with the condition that produces it; the
   ".." check is reported before the short local part.
   */
  lemma ValidateEmailOutcomes(email: string)
    ensures ValidateEmail(email) == Some(EmailRequired) <==> email == ""
    ensures ValidateEmail(email) == Some(EmailMalformed) <==> email != "" && !MatchesEmailPattern(email)
    ensures ValidateEmail(email) == Some(EmailDoubleDot)
        <==> MatchesEmailPattern(email) && IsSubstring("..", email)
    ensures ValidateEmail(email) == None
        <==> MatchesEmailPattern(email) && !IsSubstring("..", email) &&
             forall at :: 0 <= at < |email| && email[at] == '@' ==> JsLength(email[..at]) >= 2
  {
    EmailPatternIsWellFormed(email);
    IncludesIsSubstring(email, "..");
    if MatchesEmailPattern(email) {
      var at, dot :| PatternMatchAt(email, at, dot);
      assert '@' !in email[..at] by {
        forall k | 0 <= k < at ensures email[..at][k] != '@' {
          assert IsEmailChar(email[k]);
        }
      }
      SplitFirstAt(email, '@', at);
      forall at' | 0 <= at' < |email| && email[at'] == '@' ensures at' == at { }
    }
  }

  // ---------------------------------------------------------------------------
  // Username
  // ---------------------------------------------------------------------------

  /** `validateUsername`: required, at least 3, at most 20, then the character set. */
  function ValidateUsername(username: string): Option<string>
  {
    if username == "" then Some(UsernameRequired)
    else if JsLength(username) < 3 then Some(UsernameTooShort)
    else if JsLength(username) > 20 then Some(UsernameTooLong)
    else if !AllWordChars(username) then Some(UsernameBadChars)
    else None
  }

  /** Each message of `validateUsername` with the condition that produces it. */
  lemma ValidateUsernameOutcomes(username: string)
    ensures ValidateUsername(username) == Some(UsernameRequired) <==> username == ""
    ensures ValidateUsername(username) == Some(UsernameTooShort) <==> 0 < JsLength(username) < 3
    ensures ValidateUsername(username) == Some(UsernameTooLong) <==> JsLength(username) > 20
    ensures ValidateUsername(username) == Some(UsernameBadChars)
        <==> 3 <= JsLength(username) <= 20 && exists i :: 0 <= i < |username| && !IsWordChar(username[i])
    ensures ValidateUsername(username) == None
        <==> 3 <= JsLength(username) <= 20 && AllWordChars(username)
  {
  }

  /** A name of exactly twenty characters passes both length checks. */
  lemma TwentyCharactersPassLength(username: string)
    requires |username| == 20 && AllWordChars(username)
    ensures ValidateUsername(username) == None
  {
    JsLengthOfBmp(username);
  }

  // ---------------------------------------------------------------------------
  // Password
  // ---------------------------------------------------------------------------

  /** `/[A-Z]/.test(password)` */
  predicate HasUpper(password: string) { exists i :: 0 <= i < |password| && IsAsciiUpper(password[i]) }

  /** `/[a-z]/.test(password)` */
  predicate HasLower(password: string) { exists i :: 0 <= i < |password| && IsAsciiLower(password[i]) }

  /** `/\d/.test(password)` and `/[0-9]/.test(password)` */
  predicate HasDigit(password: string) { exists i :: 0 <= i < |password| && IsAsciiDigit(password[i]) }

  /** The class `[!@#$%^&*(),.?":{}|<>]` */
  const SpecialChars := "!@#$%^&*(),.?\":{}|<>"

  predicate HasSpecial(password: string) { exists i :: 0 <= i < |password| && password[i] in SpecialChars }

  /** `/[^A-Za-z0-9]/.test(password)` */
  predicate HasNonAlnum(password: string) { exists i :: 0 <= i < |password| && !IsAsciiAlnum(password[i]) }

  /** `validatePassword`: required, at least 8, then upper, lower, digit, special. */
  function ValidatePassword(password: string): Option<string>
  {
    if password == "" then Some(PasswordRequired)
    else if JsLength(password) < 8 then Some(PasswordTooShort)
    else if !HasUpper(password) then Some(PasswordNoUpper)
    else if !HasLower(password) then Some(PasswordNoLower)
    else if !HasDigit(password) then Some(PasswordNoDigit)
    else if !HasSpecial(password) then Some(PasswordNoSpecial)
    else None
  }

  /**
   Each message of `validatePassword` with the condition that produces it, in
   source order; a password is accepted exactly when it is long enough and
   has all four kinds of character.
   */
  lemma ValidatePasswordAccepts(password: string)
    ensures ValidatePassword(password) == None
        <==> JsLength(password) >= 8 && HasUpper(password) && HasLower(password) &&
             HasDigit(password) && HasSpecial(password)
    ensures ValidatePassword(password) == Some(PasswordRequired) <==> password == ""
    ensures ValidatePassword(password) == Some(PasswordTooShort) <==> 0 < JsLength(password) < 8
    ensures ValidatePassword(password) == Some(PasswordNoUpper)
        <==> JsLength(password) >= 8 && !HasUpper(password)
    ensures ValidatePassword(password) == Some(PasswordNoLower)
        <==> JsLength(password) >= 8 && HasUpper(password) && !HasLower(password)
    ensures ValidatePassword(password) == Some(PasswordNoDigit)
        <==> JsLength(password) >= 8 && HasUpper(password) && HasLower(password) && !HasDigit(password)
    ensures ValidatePassword(password) == Some(PasswordNoSpecial)
        <==> JsLength(password) >= 8 && HasUpper(password) && HasLower(password) &&
             HasDigit(password) && !HasSpecial(password)
  {
  }

  /**
   The password score in half-points (the source adds 25 and 12.5 on a
   0..100 scale): 50 for length at least 8, 50 each for an upper- and a
   lower-case letter, 25 each for a digit and for any other character.
   */
  function Strength(password: string): (halfPoints: int)
    ensures 0 <= halfPoints <= 200
    ensures password == "" ==> halfPoints == 0
  {
    if password == "" then 0
    else
      (if JsLength(password) >= 8 then 50 else 0) +
      (if HasUpper(password) then 50 else 0) +
      (if HasLower(password) then 50 else 0) +
      (if HasDigit(password) then 25 else 0) +
      (if HasNonAlnum(password) then 25 else 0)
  }

  /**
   `getPasswordStrength`, in half-points: adds each criterion's weight to a
   running score and caps it at the maximum.
   */
  method GetPasswordStrength(password: string) returns (halfPoints: int)
    ensures halfPoints == Strength(password)
    ensures 0 <= halfPoints <= 200
  {
    if password == "" {
      return 0;
    }
    var strength := 0;
    if JsLength(password) >= 8 {
      strength := strength + 50;
    }
    if HasUpper(password) {
      strength := strength + 50;
    }
    if HasLower(password) {
      strength := strength + 50;
    }
    if HasDigit(password) {
      strength := strength + 25;
    }
    if HasNonAlnum(password) {
      strength := strength + 25;
    }
    halfPoints := if strength < 200 then strength else 200;
  }

  /** Every password `validatePassword` accepts scores the full 100. */
  lemma AcceptedPasswordScoresFull(password: string)
    requires ValidatePassword(password) == None
    ensures Strength(password) == 200
  {
    var i :| 0 <= i < |password| && password[i] in SpecialChars;
    assert !IsAsciiAlnum(password[i]);
  }

  /** Appending characters never lowers the score. */
  lemma StrengthGrowsWithAppend(password: string, more: string)
    ensures Strength(password) <= Strength(password + more)
  {
    var p := password + more;
    if password != "" {
      JsLengthAppend(password, more);
      forall i | 0 <= i < |password| ensures p[i] == password[i] { }
      if HasUpper(password) {
        var i :| 0 <= i < |password| && IsAsciiUpper(password[i]);
        assert IsAsciiUpper(p[i]);
      }
      if HasLower(password) {
        var i :| 0 <= i < |password| && IsAsciiLower(password[i]);
        assert IsAsciiLower(p[i]);
      }
      if HasDigit(password) {
        var i :| 0 <= i < |password| && IsAsciiDigit(password[i]);
        assert IsAsciiDigit(p[i]);
      }
      if HasNonAlnum(password) {
        var i :| 0 <= i < |password| && !IsAsciiAlnum(password[i]);
        assert !IsAsciiAlnum(p[i]);
      }
    }
  }
}
