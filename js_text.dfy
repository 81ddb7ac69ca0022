/**
 The pieces of the JavaScript string runtime that the username filter and the
 form validators lean on: `null`-or-value results, `length` in UTF-16 code
 units, the ASCII character classes their regular expressions name, the `\s`
 class, and `String.prototype.includes`.
 */
module JsText {

  /** A validator's `string | null` result: `None` stands for `null`. */
  datatype Option<T> = None | Some(value: T)

  /** Code units a character occupies in UTF-16, JavaScript's string encoding. */
  function Utf16Width(c: char): nat
  {
    if c as int > 0xFFFF then 2 else 1
  }

  /**
   `s.length`: characters outside the Basic Multilingual Plane are surrogate
   pairs and count twice.
   */
  function JsLength(s: string): (n: nat)
    ensures |s| <= n <= 2 * |s|
  {
    if s == [] then 0 else Utf16Width(s[0]) + JsLength(s[1..])
  }

  /** The length of a concatenation is the sum of the lengths. */
  lemma {:induction false} JsLengthAppend(s: string, t: string)
    ensures JsLength(s + t) == JsLength(s) + JsLength(t)
  {
    if s == [] {
      assert s + t == t;
    } else {
      assert (s + t)[1..] == s[1..] + t;
      JsLengthAppend(s[1..], t);
    }
  }

  /** On text inside the Basic Multilingual Plane `length` counts characters. */
  lemma {:induction false} JsLengthOfBmp(s: string)
    requires forall i :: 0 <= i < |s| ==> s[i] as int <= 0xFFFF
    ensures JsLength(s) == |s|
  {
    if s != [] {
      JsLengthOfBmp(s[1..]);
    }
  }

  predicate IsAsciiUpper(c: char) { 'A' <= c <= 'Z' }

  predicate IsAsciiLower(c: char) { 'a' <= c <= 'z' }

  /** `\d` and `[0-9]`: JavaScript's `\d` is ASCII-only. */
  predicate IsAsciiDigit(c: char) { '0' <= c <= '9' }

  /** `[A-Za-z0-9]` */
  predicate IsAsciiAlnum(c: char) { IsAsciiUpper(c) || IsAsciiLower(c) || IsAsciiDigit(c) }

  /** `[a-zA-Z0-9_]` */
  predicate IsWordChar(c: char) { IsAsciiAlnum(c) || c == '_' }

  /** `/^[a-zA-Z0-9_]+$/.test(s)` on a non-empty string. */
  predicate AllWordChars(s: string)
  {
    forall i :: 0 <= i < |s| ==> IsWordChar(s[i])
  }

  /**
   `\s`: the ECMAScript WhiteSpace and LineTerminator characters (tab, line
   feed, vertical tab, form feed, carriage return, space, no-break space, the
   Unicode space separators, line and paragraph separator, byte order mark).
   */
  predicate IsWhitespace(c: char)
  {
    c == '\t' || c == '\n' || c == '\U{000B}' || c == '\U{000C}' || c == '\r' || c == ' ' ||
    c == '\U{00A0}' || c == '\U{1680}' || ('\U{2000}' <= c <= '\U{200A}') ||
    c == '\U{2028}' || c == '\U{2029}' || c == '\U{202F}' || c == '\U{205F}' ||
    c == '\U{3000}' || c == '\U{FEFF}'
  }

  /** `w` occurs in `s` starting at index `i`. */
  predicate OccursAt(w: string, s: string, i: int)
  {
    0 <= i <= |s| - |w| && s[i..i + |w|] == w
  }

  /** `w` is a contiguous substring of `s`. */
  ghost predicate IsSubstring(w: string, s: string)
  {
    exists i :: OccursAt(w, s, i)
  }

  /** `s.includes(w)`, scanning the start positions of `s` from the left. */
  function Includes(s: string, w: string): bool
  {
    w <= s || (s != [] && Includes(s[1..], w))
  }

  /** An occurrence in the tail is an occurrence one position later in `s`. */
  lemma OccursInTail(s: string, w: string, i: int)
    requires s != [] && OccursAt(w, s[1..], i)
    ensures OccursAt(w, s, i + 1)
  {
    assert s[i + 1..i + 1 + |w|] == s[1..][i..i + |w|];
  }

  /** An occurrence past the first position is an occurrence in the tail. */
  lemma OccursPastHead(s: string, w: string, i: int)
    requires i > 0 && OccursAt(w, s, i)
    ensures OccursAt(w, s[1..], i - 1)
  {
    assert s[1..][i - 1..i - 1 + |w|] == s[i..i + |w|];
  }

  /** The left-to-right scan finds `w` exactly when `w` occurs somewhere in `s`. */
  lemma {:induction false} IncludesIsSubstring(s: string, w: string)
    ensures Includes(s, w) <==> IsSubstring(w, s)
  {
    if w <= s {
      assert OccursAt(w, s, 0);
    } else if s != [] {
      IncludesIsSubstring(s[1..], w);
      if IsSubstring(w, s[1..]) {
        var i :| OccursAt(w, s[1..], i);
        OccursInTail(s, w, i);
      }
      if IsSubstring(w, s) {
        var i :| OccursAt(w, s, i);
        if i > 0 {
          OccursPastHead(s, w, i);
        }
      }
    }
  }
}
