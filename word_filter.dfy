/**
 The username moderation filter of `src/utils/wordFilter.ts`: leetspeak
 normalization, the module-wide grow-only set of blocked words, the username
 guard chain that ends in the moderation check, and the start-up merge of a
 stored word list.
 */
module WordFilter {
  import opened JsText

  /** The four words hard-coded both in the moderation check and in start-up. */
  const HardCodedWords: set<string> := {"nigger", "nigga", "negro", "niger"}

  const UsernameRequired := "Username is required"
  const UsernameTooShort := "Username must be at least 3 characters"
  const UsernameTooLong := "Username must be less than 20 characters"
  const UsernameBadChars := "Username can only contain letters, numbers, and underscores"
  const UsernameInappropriate := "Username contains inappropriate content"

  // ---------------------------------------------------------------------------
  // Normalization
  // ---------------------------------------------------------------------------

  /** `toLowerCase`, on ASCII letters. */
  function LowerChar(c: char): char
  {
    if IsAsciiUpper(c) then (c as int + 32) as char else c
  }

  function Lower(s: string): (r: string)
    ensures |r| == |s|
  {
    seq(|s|, i requires 0 <= i < |s| => LowerChar(s[i]))
  }

  /** The characters with a meaning of their own in a regular expression. */
  predicate IsRegexSyntax(c: char)
  {
    c == '^' || c == '$' || c == '\\' || c == '.' || c == '*' || c == '+' || c == '?' ||
    c == '(' || c == ')' || c == '[' || c == ']' || c == '{' || c == '}' || c == '|'
  }

  /**
   A substitute this model compiles as a regular expression: one character,
   either `$` or one without any syntactic meaning.
   */
  type Substitute = sub: string | |sub| == 1 && (sub[0] == '$' || !IsRegexSyntax(sub[0])) witness "a"

  /**
   The substitution table, in the iteration order of its string keys: each
   letter with the substitutes that are rewritten to it.
   */
  const Substitutions: seq<(char, seq<Substitute>)> := [
    ('a', ["@", "4"]),
    ('i', ["1", "!"]),
    ('o', ["0"]),
    ('e', ["3"]),
    ('s', ["$", "5"]),
    ('l', ["1"]),
    ('t', ["7"])
  ]

  /**
   What `new RegExp(sub, 'g')` matches for a one-character source: that
   character, or, for the unescaped `$`, the end of the string.
   */
  datatype Pattern = Literal(c: char) | EndAnchor

  /** `new RegExp(sub, 'g')` for the substitutes of the table. */
  function Compile(sub: Substitute): Pattern
  {
    if sub[0] == '$' then EndAnchor else Literal(sub[0])
  }

  /**
   `s.replace(pattern, letter)` with a global pattern: every occurrence of a
   literal is rewritten; the end anchor matches once, the empty match at the
   end, so the letter is appended.
   */
  function Replace(s: string, p: Pattern, letter: char): string
  {
    match p
    case Literal(c) => seq(|s|, i requires 0 <= i < |s| => if s[i] == c then letter else s[i])
    case EndAnchor => s + [letter]
  }

  /** The rewrites of one table entry, applied in order. */
  function ApplySubs(s: string, letter: char, subs: seq<Substitute>): string
    decreases |subs|
  {
    if subs == [] then s else ApplySubs(Replace(s, Compile(subs[0]), letter), letter, subs[1..])
  }

  /** The rewrites of a whole table, entry by entry. */
  function ApplyTable(s: string, table: seq<(char, seq<Substitute>)>): string
    decreases |table|
  {
    if table == [] then s else ApplyTable(ApplySubs(s, table[0].0, table[0].1), table[1..])
  }

  /**
   The letter a character reads as after the whole table: the first entry
   listing it wins, so '1' reads as 'i'; '$' is not here because its pattern
   is an anchor, not the character.
   */
  function SubstituteChar(c: char): char
  {
    if c == '@' || c == '4' then 'a'
    else if c == '1' || c == '!' then 'i'
    else if c == '0' then 'o'
    else if c == '3' then 'e'
    else if c == '5' then 's'
    else if c == '7' then 't'
    else c
  }

  function Substituted(s: string): (r: string)
    ensures |r| == |s|
  {
    seq(|s|, i requires 0 <= i < |s| => SubstituteChar(s[i]))
  }

  /** The table's ten rewrites, written out in the order they run. */
  lemma TableUnfolds(s: string)
    ensures ApplyTable(s, Substitutions)
         == Replace(Replace(Replace(Replace(Replace(Replace(Replace(Replace(Replace(Replace(s,
              Literal('@'), 'a'), Literal('4'), 'a'), Literal('1'), 'i'), Literal('!'), 'i'),
              Literal('0'), 'o'), Literal('3'), 'e'), EndAnchor, 's'), Literal('5'), 's'),
              Literal('1'), 'l'), Literal('7'), 't')
  {
  }

  /**
   Running the table's rewrites in order is a character-by-character
   substitution followed by one 's', the letter the `$` anchor appends.
   */
  lemma TableIsCharwise(s: string)
    ensures ApplyTable(s, Substitutions) == Substituted(s) + "s"
  {
    var s1 := Replace(s, Literal('@'), 'a');
    var s2 := Replace(s1, Literal('4'), 'a');
    var s3 := Replace(s2, Literal('1'), 'i');
    var s4 := Replace(s3, Literal('!'), 'i');
    var s5 := Replace(s4, Literal('0'), 'o');
    var s6 := Replace(s5, Literal('3'), 'e');
    var s7 := Replace(s6, EndAnchor, 's');
    var s8 := Replace(s7, Literal('5'), 's');
    var s9 := Replace(s8, Literal('1'), 'l');
    var s10 := Replace(s9, Literal('7'), 't');
    TableUnfolds(s);
    assert |s6| == |s| && s7 == s6 + "s";
    forall i | 0 <= i < |s| ensures s10[i] == SubstituteChar(s[i]) {
      assert s7[i] == s6[i];
    }
    assert s10[|s|] == 's';
    assert s10 == Substituted(s) + "s";
  }

  /** `[a-z0-9]`, what survives the final rewrite. */
  predicate IsLowerAlnum(c: char)
  {
    IsAsciiLower(c) || IsAsciiDigit(c)
  }

  /** `s.replace(/[^a-z0-9]/g, '')`: keeps exactly the characters in `[a-z0-9]`, in order. */
  function StripNonAlnum(s: string): (r: string)
    ensures |r| <= |s|
  {
    if s == [] then [] else (if IsLowerAlnum(s[0]) then [s[0]] else []) + StripNonAlnum(s[1..])
  }

  /** The final rewrite keeps a character exactly when it is in `[a-z0-9]`. */
  lemma {:induction false} StripAlphabet(s: string)
    ensures forall c :: c in StripNonAlnum(s) <==> c in s && IsLowerAlnum(c)
  {
    if s != [] {
      StripAlphabet(s[1..]);
      assert s == [s[0]] + s[1..];
    }
  }

  lemma {:induction false} StripAppend(s: string, t: string)
    ensures StripNonAlnum(s + t) == StripNonAlnum(s) + StripNonAlnum(t)
  {
    if s == [] {
      assert s + t == t;
    } else {
      var head := if IsLowerAlnum(s[0]) then [s[0]] else [];
      assert (s + t)[0] == s[0] && (s + t)[1..] == s[1..] + t;
      StripAppend(s[1..], t);
      calc {
        StripNonAlnum(s + t);
        head + StripNonAlnum(s[1..] + t);
        head + (StripNonAlnum(s[1..]) + StripNonAlnum(t));
        (head + StripNonAlnum(s[1..])) + StripNonAlnum(t);
      }
    }
  }

  /** Text already in `[a-z0-9]` passes the final rewrite unchanged. */
  lemma {:induction false} StripKeepsLowerAlnum(s: string)
    requires forall i :: 0 <= i < |s| ==> IsLowerAlnum(s[i])
    ensures StripNonAlnum(s) == s
  {
    if s != [] {
      StripKeepsLowerAlnum(s[1..]);
    }
  }

  /**
   The text as the filter reads it, character by character: lower-cased,
   each character read as the letter the table makes of it, and everything
   outside `[a-z0-9]` dropped.
   */
  function Canonical(s: string): string
  {
    StripNonAlnum(Substituted(Lower(s)))
  }

  /** Each piece of a text is read on its own. */
  lemma CanonicalAppend(s: string, t: string)
    ensures Canonical(s + t) == Canonical(s) + Canonical(t)
  {
    assert Lower(s + t) == Lower(s) + Lower(t);
    assert Substituted(Lower(s) + Lower(t)) == Substituted(Lower(s)) + Substituted(Lower(t));
    StripAppend(Substituted(Lower(s)), Substituted(Lower(t)));
  }

  /**
   What `normalizeText` returns: the text as the filter reads it, followed by
   the 's' that the `$` anchor appends.
   */
  function Normalized(text: string): string
  {
    Canonical(text) + "s"
  }

  /**
   `normalizeText`: lower-case, then rewrite the text with each substitute of
   each table entry in turn, then strip everything outside `[a-z0-9]`.
   */
  method NormalizeText(text: string) returns (normalized: string)
    ensures normalized == Normalized(text)
  {
    normalized := Lower(text);
    ghost var target := ApplyTable(normalized, Substitutions);
    var k := 0;
    while k < |Substitutions|
      invariant 0 <= k <= |Substitutions|
      invariant ApplyTable(normalized, Substitutions[k..]) == target
    {
      var (letter, subs) := Substitutions[k];
      var j := 0;
      while j < |subs|
        invariant 0 <= j <= |subs|
        invariant ApplyTable(ApplySubs(normalized, letter, subs[j..]), Substitutions[k + 1..]) == target
      {
        assert subs[j..][1..] == subs[j + 1..];
        normalized := Replace(normalized, Compile(subs[j]), letter);
        j := j + 1;
      }
      k := k + 1;
    }
    TableIsCharwise(Lower(text));
    StripAppend(Substituted(Lower(text)), "s");
    assert StripNonAlnum("s") == "s";
    normalized := StripNonAlnum(normalized);
  }

  // ---------------------------------------------------------------------------
  // What normalization promises
  // ---------------------------------------------------------------------------

  /** The digits the table rewrites to letters. */
  const SubstitutedDigits := "013457"

  /**
   A normalized text holds only `[a-z0-9]`, never one of the digits the table
   rewrites, and always ends in the 's' of the `$` anchor.
   */
  lemma NormalizedAlphabet(text: string)
    ensures forall c :: c in Normalized(text) ==> IsLowerAlnum(c) && c !in SubstitutedDigits
    ensures |Normalized(text)| > 0 && Normalized(text)[|Normalized(text)| - 1] == 's'
  {
    var sub := Substituted(Lower(text));
    StripAlphabet(sub);
    forall c | c in Canonical(text) ensures c !in SubstitutedDigits {
      var i :| 0 <= i < |sub| && sub[i] == c;
    }
  }

  /** An upper-case ASCII letter is read exactly as its lower-case form. */
  lemma UpperReadsAsLower(text: string, i: int)
    requires 0 <= i < |text| && IsAsciiUpper(text[i])
    ensures Normalized(text[i := LowerChar(text[i])]) == Normalized(text)
  {
    assert Lower(text[i := LowerChar(text[i])]) == Lower(text);
  }

  /** Normalization reads one inserted character on its own. */
  lemma NormalizedAround(a: string, c: char, b: string)
    ensures Normalized(a + [c] + b) == Canonical(a) + Canonical([c]) + Canonical(b) + "s"
  {
    CanonicalAppend(a + [c], b);
    CanonicalAppend(a, [c]);
  }

  /**
   A substitute reads as the letter of the first table entry that lists it,
   wherever it stands (the `$` entry aside).
   */
  lemma SubstituteReadsAsLetter(a: string, b: string, k: int, j: int)
    requires 0 <= k < |Substitutions| && 0 <= j < |Substitutions[k].1|
    requires Substitutions[k].1[j] != "$"
    requires forall k' :: 0 <= k' < k ==> Substitutions[k].1[j] !in Substitutions[k'].1
    ensures Normalized(a + Substitutions[k].1[j] + b) == Normalized(a + [Substitutions[k].0] + b)
  {
    var d := Substitutions[k].1[j][0];
    assert Substitutions[k].1[j] == [d];
    assert SubstituteChar(LowerChar(d)) == Substitutions[k].0 by {
      assert k != 5 by {
        assert Substitutions[5].1[0] in Substitutions[1].1;
      }
    }
    assert Substituted(Lower([d])) == [Substitutions[k].0] == Substituted(Lower([Substitutions[k].0]));
    NormalizedAround(a, d, b);
    NormalizedAround(a, Substitutions[k].0, b);
  }

  /** '1' is listed under both 'i' and 'l'; it always reads as 'i'. */
  lemma OneReadsAsI(a: string, b: string)
    ensures Normalized(a + "1" + b) == Normalized(a + "i" + b)
    ensures Normalized(a + "1" + b) != Normalized(a + "l" + b)
  {
    NormalizedAround(a, '1', b);
    NormalizedAround(a, 'i', b);
    NormalizedAround(a, 'l', b);
    assert Substituted(Lower("1")) == "i";
    assert Canonical("1") == "i" == Canonical("i");
    assert Substituted(Lower("l")) == "l";
    assert Canonical("l") == "l";
    assert Normalized(a + "i" + b)[|Canonical(a)|] == 'i';
    assert Normalized(a + "l" + b)[|Canonical(a)|] == 'l';
  }

  /** A literal '$' is only stripped: it never reads as 's'. */
  lemma DollarIsDropped(a: string, b: string)
    ensures Normalized(a + "$" + b) == Normalized(a + b)
  {
    var dollar := Canonical(['$']);
    assert dollar == [] by {
      assert Substituted(Lower(['$'])) == ['$'];
    }
    NormalizedAround(a, '$', b);
    assert a + "$" + b == a + ['$'] + b;
    CanonicalAppend(a, b);
    assert Canonical(a) + dollar + Canonical(b) == Canonical(a + b);
  }

  /**
   Normalizing twice appends a second 's': `normalizeText` is not idempotent.
   */
  lemma NormalizeTwice(text: string)
    ensures Normalized(Normalized(text)) == Normalized(text) + "s"
    ensures Normalized(Normalized(text)) != Normalized(text)
  {
    var n := Normalized(text);
    NormalizedAlphabet(text);
    assert forall i :: 0 <= i < |n| ==> n[i] in n;
    assert Lower(n) == n;
    assert Substituted(n) == n;
    StripKeepsLowerAlnum(n);
    assert Canonical(n) == n;
  }

  // ---------------------------------------------------------------------------
  // Moderation
  // ---------------------------------------------------------------------------

  /** Some word of `words` occurs in the normalized text. */
  ghost predicate Offensive(text: string, words: set<string>)
  {
    exists w :: w in words && IsSubstring(w, Normalized(text))
  }

  /** The guards before the moderation check all pass. */
  predicate PassesFormatChecks(username: string)
  {
    username != "" && 3 <= JsLength(username) <= 20 && AllWordChars(username)
  }

  /**
   The message `validateUsername` returns when `blocked` is the blocked-word
   set before the call.
   */
  ghost function UsernameVerdict(username: string, blocked: set<string>): Option<string>
  {
    if username == "" then Some(UsernameRequired)
    else if JsLength(username) < 3 then Some(UsernameTooShort)
    else if JsLength(username) > 20 then Some(UsernameTooLong)
    else if !AllWordChars(username) then Some(UsernameBadChars)
    else if Offensive(username, blocked + HardCodedWords) then Some(UsernameInappropriate)
    else None
  }

  /** The outcome of reading and parsing the stored list under 'blocked_words'. */
  datatype StoredWords =
    | Missing                   // nothing stored, or the empty string
    | Stored(words: seq<string>) // a JSON array of strings
    | Failed                    // the read rejected or `JSON.parse` threw

  /** The blocked-word set after start-up merges the hard-coded and the stored words. */
  function Initialized(blocked: set<string>, stored: StoredWords): (r: set<string>)
    ensures blocked + HardCodedWords <= r
    ensures stored.Stored? ==> forall w :: w in stored.words ==> w in r
    ensures forall w :: w in r ==> w in blocked || w in HardCodedWords || (stored.Stored? && w in stored.words)
  {
    blocked + HardCodedWords + (if stored.Stored? then set w | w in stored.words else {})
  }

  /** The module-level state of the filter: the grow-only set `BLOCKED_WORDS`. */
  class Filter {
    var blockedWords: set<string>

    /** The set starts empty when the module loads. */
    constructor ()
      ensures blockedWords == {}
    {
      blockedWords := {};
    }

    /**
     `containsOffensiveContent`: adds the hard-coded words to the set, then
     reports whether any word of the set occurs in the normalized text.
     */
    method ContainsOffensiveContent(text: string) returns (offensive: bool)
      modifies this
      ensures blockedWords == old(blockedWords) + HardCodedWords
      ensures offensive == Offensive(text, blockedWords)
    {
      var normalized := NormalizeText(text);
      blockedWords := blockedWords + HardCodedWords;
      if normalized in blockedWords || normalized in HardCodedWords {
        assert OccursAt(normalized, normalized, 0);
        return true;
      }
      var pending := blockedWords + HardCodedWords;
      while pending != {}
        invariant blockedWords == old(blockedWords) + HardCodedWords
        invariant pending <= blockedWords
        invariant forall w :: w in blockedWords && w !in pending ==> !IsSubstring(w, normalized)
        decreases pending
      {
        var word :| word in pending;
        IncludesIsSubstring(normalized, word);
        if Includes(normalized, word) {
          return true;
        }
        pending := pending - {word};
      }
      return false;
    }

    /**
     `validateUsername`: the first failing guard's message, the moderation
     check last; only a name that reaches that check grows the set.
     */
    method ValidateUsername(username: string) returns (message: Option<string>)
      modifies this
      ensures message == UsernameVerdict(username, old(blockedWords))
      ensures blockedWords == old(blockedWords) + (if PassesFormatChecks(username) then HardCodedWords else {})
    {
      if username == "" {
        return Some(UsernameRequired);
      }
      if JsLength(username) < 3 {
        return Some(UsernameTooShort);
      }
      if JsLength(username) > 20 {
        return Some(UsernameTooLong);
      }
      if !AllWordChars(username) {
        return Some(UsernameBadChars);
      }
      var offensive := ContainsOffensiveContent(username);
      if offensive {
        return Some(UsernameInappropriate);
      }
      return None;
    }

    /**
     `initializeWordFilter`: adds the hard-coded words, then the stored list
     when there is one; a failed read or parse keeps the first step.
     */
    method InitializeWordFilter(stored: StoredWords)
      modifies this
      ensures blockedWords == Initialized(old(blockedWords), stored)
    {
      blockedWords := blockedWords + HardCodedWords;
      match stored
      case Stored(words) =>
        blockedWords := blockedWords + set w | w in words;
      case Missing =>
      case Failed =>
    }
  }

  // ---------------------------------------------------------------------------
  // What moderation promises
  // ---------------------------------------------------------------------------

  /** A normalized text equal to a blocked word is caught by the substring test. */
  lemma ExactMatchIsSubstring(text: string, words: set<string>)
    requires Normalized(text) in words
    ensures Offensive(text, words)
  {
    assert OccursAt(Normalized(text), Normalized(text), 0);
  }

  /** The guard chain in source order, each message with the condition that produces it. */
  lemma UsernameVerdictOrder(username: string, blocked: set<string>)
    ensures UsernameVerdict(username, blocked) == Some(UsernameRequired) <==> username == ""
    ensures UsernameVerdict(username, blocked) == Some(UsernameTooShort) <==> 0 < JsLength(username) < 3
    ensures UsernameVerdict(username, blocked) == Some(UsernameTooLong) <==> JsLength(username) > 20
    ensures UsernameVerdict(username, blocked) == Some(UsernameBadChars)
        <==> 3 <= JsLength(username) <= 20 && exists i :: 0 <= i < |username| && !IsWordChar(username[i])
    ensures UsernameVerdict(username, blocked) == Some(UsernameInappropriate)
        <==> PassesFormatChecks(username) && Offensive(username, blocked + HardCodedWords)
    ensures UsernameVerdict(username, blocked) == None
        <==> PassesFormatChecks(username) && !Offensive(username, blocked + HardCodedWords)
  {
  }

  /** A blocked set that only grows rejects at least the names it rejected before. */
  lemma RejectionSurvivesGrowth(username: string, blocked: set<string>, grown: set<string>)
    requires blocked <= grown
    requires UsernameVerdict(username, blocked).Some?
    ensures UsernameVerdict(username, grown) == UsernameVerdict(username, blocked)
  {
    if PassesFormatChecks(username) && Offensive(username, blocked + HardCodedWords) {
      var w :| w in blocked + HardCodedWords && IsSubstring(w, Normalized(username));
      assert w in grown + HardCodedWords;
    }
  }

  /** Start-up run twice with the same stored list gives the set it gave once. */
  lemma InitializeTwice(blocked: set<string>, stored: StoredWords)
    ensures Initialized(Initialized(blocked, stored), stored) == Initialized(blocked, stored)
  {
  }

  lemma SeparatedLeetLower()
    ensures Lower("N_1_g_G_4") == "n_1_g_g_4"
  {
    var name, lowered := "N_1_g_G_4", "n_1_g_g_4";
    forall i | 0 <= i < |name| ensures Lower(name)[i] == lowered[i] {
      assert name[i] == 'N' || name[i] == 'G' || name[i] == lowered[i];
    }
  }

  lemma SeparatedLeetSubstituted()
    ensures Substituted("n_1_g_g_4") == "n_i_g_g_a"
  {
    var lowered, read := "n_1_g_g_4", "n_i_g_g_a";
    forall i | 0 <= i < |lowered| ensures Substituted(lowered)[i] == read[i] {
      assert lowered[i] == '1' || lowered[i] == '4' || lowered[i] == read[i];
    }
  }

  /** The final rewrite on a text with one character put in front. */
  lemma StripCons(c: char, s: string)
    ensures StripNonAlnum([c] + s) == (if IsLowerAlnum(c) then [c] else []) + StripNonAlnum(s)
  {
    assert ([c] + s)[1..] == s;
  }

  lemma SeparatedLeetStripped()
    ensures StripNonAlnum("n_i_g_g_a") == "nigga"
  {
    var s1 := ['a'];
    var s2 := ['_'] + s1;
    var s3 := ['g'] + s2;
    var s4 := ['_'] + s3;
    var s5 := ['g'] + s4;
    var s6 := ['_'] + s5;
    var s7 := ['i'] + s6;
    var s8 := ['_'] + s7;
    var s9 := ['n'] + s8;
    StripCons('a', []);
    StripCons('_', s1);
    StripCons('g', s2);
    StripCons('_', s3);
    StripCons('g', s4);
    StripCons('_', s5);
    StripCons('i', s6);
    StripCons('_', s7);
    StripCons('n', s8);
    assert s9 == "n_i_g_g_a";
    assert ['n'] + (['i'] + (['g'] + (['g'] + ['a']))) == "nigga";
  }

  /** How the filter reads the name "N_1_g_G_4". */
  lemma SeparatedLeetReading()
    ensures Canonical("N_1_g_G_4") == "nigga"
  {
    SeparatedLeetLower();
    SeparatedLeetSubstituted();
    SeparatedLeetStripped();
  }

  /** The name "N_1_g_G_4" passes every guard before the moderation check. */
  lemma SeparatedLeetNameWellFormed()
    ensures PassesFormatChecks("N_1_g_G_4")
  {
    var name := "N_1_g_G_4";
    JsLengthOfBmp(name);
    forall i | 0 <= i < |name| ensures IsWordChar(name[i]) {
      assert name[i] in "N_1gG4";
    }
  }

  /**
   Separators and leetspeak digits do not hide a hard-coded word, whatever
   the stored list holds.
   */
  lemma SeparatedLeetNameRejected(blocked: set<string>)
    ensures UsernameVerdict("N_1_g_G_4", blocked) == Some(UsernameInappropriate)
  {
    var name := "N_1_g_G_4";
    SeparatedLeetNameWellFormed();
    SeparatedLeetReading();
    assert OccursAt("nigga", Normalized(name), 0);
    assert "nigga" in blocked + HardCodedWords;
  }

  /**
   The 's' the `$` anchor appends completes a blocked word that ends in 's':
   "bas" is read as "bass" and rejected when "ass" is blocked.
   */
  lemma AppendedSCompletesWord()
    ensures UsernameVerdict("bas", {"ass"}) == Some(UsernameInappropriate)
  {
    var name := "bas";
    JsLengthOfBmp(name);
    assert Lower(name) == name && Substituted(name) == name;
    assert Canonical(name) == "bas";
    assert OccursAt("ass", Normalized(name), 1);
  }
}
