# Username moderation and sign-up validators, modelled in Dafny

This project models the two pieces of string logic in the mobile client's
`src/utils` directory.

**The word filter** (`src/utils/wordFilter.ts`, module `WordFilter`):
- `normalizeText` lower-cases a name and rewrites leetspeak substitutes to
  letters, following a fixed table. It then strips everything outside
  `[a-z0-9]`.
- The module-level set `BLOCKED_WORDS` only ever grows. It is modelled as the
  `blockedWords` field of class `Filter`.
- `containsOffensiveContent` adds the four hard-coded words to the set. It
  then asks whether any word of the set occurs in the normalized text.
- `validateUsername` is a chain of guards that ends in that moderation check.
- `initializeWordFilter` merges the hard-coded words and an optional stored
  list into the set.

**The form validators** (`src/utils/validation.ts`, module `Validation`):
- `validateEmail`, `validateUsername` and `validatePassword` are guard chains.
  Each returns the first failing message, or `null`, modelled as `None`.
- `getPasswordStrength` is a weighted score.

Module `JsText` holds the JavaScript runtime behaviour both files rely on:
- `length` counts UTF-16 code units (`JsLength`);
- the ASCII classes their regular expressions name;
- the `\s` class;
- `String.prototype.includes`.

Module `UsernameAgreement` relates the two `validateUsername` functions.

How the code behaves, as modelled:
- Each substitute is handed to `new RegExp` unescaped. `'$'` is therefore
  the end-of-string anchor, not a dollar sign. Its rewrite appends one `'s'`
  to every text.
- A literal `'$'` is left alone by that rewrite and is later stripped.
- So every normalized text ends in `'s'`. Normalizing twice adds a second
  `'s'` (`NormalizeTwice`).
- The filter reads `"bas"` as `"bass"` (`AppendedSCompletesWord`).
- `'1'` is listed under both `i` and `l`. The `i` entry comes first in the
  table, so `'1'` always reads as `'i'`.
- `NormalizeText` is a method with the source's two nested loops over the
  table. It is proved equal to `Normalized`, a character-by-character
  reference definition (`TableIsCharwise`).

The code does none of the following, and neither does the model:
- Normalization does not collapse repeated characters.
- Substitutes are not escaped.
- There is no fallback to plain lower-casing.
- There is no bundled word list, and the list is never written back.
- A stored list is added to the set; it does not replace the set.
- `containsOffensiveContent` never sees an empty set, because it adds the
  four words first. So there is no fail-open path.

## Model

| member | source | states |
|---|---|---|
| `JsText.JsLength` | src/utils/validation.ts:20-21 | `length` counts UTF-16 code units: at least one and at most two per character |
| `JsText.JsLengthOfBmp` | src/utils/wordFilter.ts:51-52 | on text inside the Basic Multilingual Plane, `length` is the number of characters |
| `JsText.IncludesIsSubstring` | src/utils/wordFilter.ts:41 | the left-to-right `includes` scan is true exactly when the word occurs as a contiguous substring |
| `WordFilter.TableIsCharwise` | src/utils/wordFilter.ts:7-15 | running the table's rewrites in key order (a, i, o, e, s, l, t) rewrites each character on its own and then appends one `'s'` |
| `WordFilter.StripAlphabet` | src/utils/wordFilter.ts:26 | the final rewrite keeps a character exactly when it is in `[a-z0-9]` |
| `WordFilter.StripKeepsLowerAlnum` | src/utils/wordFilter.ts:26 | text already in `[a-z0-9]` passes the final rewrite unchanged |
| `WordFilter.NormalizeText` | src/utils/wordFilter.ts:17-29 | the nested loops over the table, followed by the strip, return `Normalized(text)`: the character-by-character reference, lower-case, substitute, strip to `[a-z0-9]`, then append `'s'` |
| `WordFilter.NormalizedAlphabet` | src/utils/wordFilter.ts:20-26 | a normalized text holds only `[a-z0-9]`, never one of 0, 1, 3, 4, 5 or 7, and always ends in `'s'` |
| `WordFilter.UpperReadsAsLower` | src/utils/wordFilter.ts:18 | replacing an upper-case ASCII letter by its lower-case form leaves the normalized text unchanged |
| `WordFilter.SubstituteReadsAsLetter` | src/utils/wordFilter.ts:7-15 | a substitute other than `'$'` reads as the letter of the first table entry that lists it, wherever it stands |
| `WordFilter.OneReadsAsI` | src/utils/wordFilter.ts:9-13 | `'1'` reads as `'i'` and never as `'l'` |
| `WordFilter.DollarIsDropped` | src/utils/wordFilter.ts:12 | a literal `'$'` is only stripped and never becomes `'s'` |
| `WordFilter.NormalizeTwice` | src/utils/wordFilter.ts:17-29 | normalizing a normalized text appends one more `'s'`, so normalization is not idempotent |
| `WordFilter.Filter.constructor` | src/utils/wordFilter.ts:5 | the blocked-word set starts empty |
| `WordFilter.Filter.ContainsOffensiveContent` | src/utils/wordFilter.ts:31-47 | the set becomes the old set plus the four hard-coded words, and nothing is removed; the result is true exactly when some word of the new set occurs in the normalized text |
| `WordFilter.ExactMatchIsSubstring` | src/utils/wordFilter.ts:36-38 | the exact-match test is subsumed by the substring test |
| `WordFilter.Filter.ValidateUsername` | src/utils/wordFilter.ts:49-64 | returns the verdict of the guard chain; the set grows by the hard-coded words only when the name reaches the moderation check |
| `WordFilter.UsernameVerdictOrder` | src/utils/wordFilter.ts:49-64 | `UsernameVerdict` is the guard chain of lines 49-64; each message holds exactly under its condition, in order: required, short, long, character set, inappropriate content; `None` holds exactly when all guards pass and no blocked word occurs |
| `WordFilter.RejectionSurvivesGrowth` | src/utils/wordFilter.ts:34 | growing the blocked set never turns a rejection into another verdict |
| `WordFilter.SeparatedLeetNameRejected` | src/utils/wordFilter.ts:17-29 | underscores and leetspeak digits do not hide a hard-coded word: `"N_1_g_G_4"` is rejected for any stored list |
| `WordFilter.AppendedSCompletesWord` | src/utils/wordFilter.ts:12 | the appended `'s'` completes a blocked word that ends in `'s'`: with `"ass"` blocked, `"bas"` is rejected |
| `WordFilter.Initialized` | src/utils/wordFilter.ts:68-75 | the set after start-up contains the old set, the four words and every stored word, and nothing else |
| `WordFilter.Filter.InitializeWordFilter` | src/utils/wordFilter.ts:66-79 | start-up adds the four words and then any stored list; a failed read or parse keeps the four words |
| `WordFilter.InitializeTwice` | src/utils/wordFilter.ts:66-79 | a second start-up with the same stored list changes nothing |
| `Validation.SplitFirst` | src/utils/validation.ts:13 | `split('@')[0]` is the longest prefix that holds no `'@'` and stops at the first `'@'` |
| `Validation.EmailPatternIsWellFormed` | src/utils/validation.ts:6 | the e-mail expression matches exactly the addresses with one `'@'`, no whitespace, a non-empty local part and a `'.'` that is neither first nor last in the domain |
| `Validation.ValidateEmailOutcomes` | src/utils/validation.ts:2-16 | `ValidateEmail` is the guard chain of lines 2-16; `""` gives "required"; any other address the expression rejects gives "valid email"; a matching address holding `".."` gives "Invalid email format" before the local-part check; `None` holds exactly when the expression matches, there is no `".."`, and at least two characters precede the `'@'` |
| `Validation.ValidateUsernameOutcomes` | src/utils/validation.ts:18-30 | `ValidateUsername` is the guard chain of lines 18-30; each message holds exactly under its condition; `None` holds exactly when the length is 3 to 20 and every character is in `[A-Za-z0-9_]` |
| `Validation.TwentyCharactersPassLength` | src/utils/validation.ts:20-21 | a name of exactly twenty word characters is accepted |
| `Validation.ValidatePasswordAccepts` | src/utils/validation.ts:32-48 | `ValidatePassword` is the guard chain of lines 32-48; each message holds exactly under its condition, in order: required for `""`, too short below 8, then no upper-case, no lower-case, no digit, no special character, each once the earlier checks pass; `None` holds exactly when the length is at least 8 and all four kinds of character are present |
| `Validation.Strength` | src/utils/validation.ts:50-61 | the score lies between 0 and 200 half-points (0..100), and the empty password scores 0 |
| `Validation.GetPasswordStrength` | src/utils/validation.ts:50-61 | the running sum of weights 50, 50, 50, 25, 25 half-points (25, 25, 25, 12.5, 12.5), capped at the maximum, equals the weighted score |
| `Validation.AcceptedPasswordScoresFull` | src/utils/validation.ts:37-58 | every password `validatePassword` accepts scores the full 100 |
| `Validation.StrengthGrowsWithAppend` | src/utils/validation.ts:50-61 | appending characters never lowers the score |
| `UsernameAgreement.ValidatorsAgree` | src/utils/wordFilter.ts:49-64 | the word filter's `validateUsername` returns the form validator's message whenever that one rejects; otherwise it returns `None` or the inappropriate-content message |

## Left out

- Reading `'blocked_words'` from AsyncStorage and `JSON.parse` are asynchronous
  I/O. Their outcome is the parameter `StoredWords`: missing, a list of
  strings, or failed.
- A stored JSON value that is not an array of strings is not modelled. A JSON
  string would add its characters to the set; an array of non-strings would
  add non-string members.
- The `console.error` call in `initializeWordFilter` is not modelled; it is
  logging only.
- Overlapping asynchronous calls of `initializeWordFilter` are not modelled.
  Each method is one atomic step on the set.
- `toLowerCase` is modelled on ASCII letters only. On the username path this
  is exact, because only `[A-Za-z0-9_]` names reach `normalizeText`. Direct
  calls on other text follow the full Unicode case mapping, which is not
  modelled.
- `new RegExp(sub, 'g')` is modelled for one-character sources only: `'$'`, or
  characters with no syntactic meaning. Those are the only sources the table
  holds.
- `Filter.ContainsOffensiveContent` visits the words of the set in an arbitrary
  order. The source visits them in insertion order and visits the
  spread-duplicated words twice. The boolean result does not depend on either.
- `getPasswordStrength` works in JavaScript numbers. The model uses integer
  half-points, so 25 is 50 and 12.5 is 25.
- `!value` also catches `null` and `undefined`. The model's inputs are always
  strings.
- `src/services/api.ts`, `src/hooks/useAuth.ts` and
  `src/providers/AuthProvider.tsx` are not part of this model. They are
  network and storage plumbing.
- The screens, components, navigation, theme and haptics are not part of this
  model either. They are UI composition.
