/** The email check of the create use case: the pattern
    `^[^\s@]+@[^\s@]+\.[^\s@]+$` as a predicate on strings. */
module EmailFormat {

  /** The characters the regular-expression class `\s` matches in
      JavaScript: the ECMAScript white space and line terminators. */
  predicate IsWhitespace(c: char)
  {
    c == '\t' || c == '\n' || c == '\U{000B}' || c == '\U{000C}' || c == '\r' || c == ' ' ||
    c == '\U{00A0}' || c == '\U{1680}' || ('\U{2000}' <= c <= '\U{200A}') ||
    c == '\U{2028}' || c == '\U{2029}' || c == '\U{202F}' || c == '\U{205F}' ||
    c == '\U{3000}' || c == '\U{FEFF}'
  }

  /** A character of the class `[^\s@]`. */
  predicate Plain(c: char)
  {
    !IsWhitespace(c) && c != '@'
  }

  predicate AllPlain(s: string)
  {
    forall k :: 0 <= k < |s| ==> Plain(s[k])
  }

  /** `s` matches the pattern: a non-empty plain local part, `@`, a
      non-empty plain part, a `.`, and a non-empty plain last part. */
  predicate IsValidEmail(s: string): (b: bool)
    ensures b ==> |s| >= 5 && s[0] != '@' && '@' in s && '.' in s
    ensures b ==> Plain(s[0]) && Plain(s[|s| - 1])
  {
    exists i, j :: 0 < i < |s| && i + 1 < j < |s| - 1 &&
      s[i] == '@' && s[j] == '.' &&
      AllPlain(s[..i]) && AllPlain(s[i + 1..j]) && AllPlain(s[j + 1..])
  }

  /** The shape the pattern admits, without the regular expression: no
      white space, exactly one `@` and not at the start, and a `.` after
      the character following the `@` and before the last character. */
  ghost predicate EmailShape(s: string)
  {
    && (forall k :: 0 <= k < |s| ==> !IsWhitespace(s[k]))
    && exists i :: 0 < i < |s| && s[i] == '@' &&
         (forall k :: 0 <= k < |s| && k != i ==> s[k] != '@') &&
         (exists j :: i + 1 < j < |s| - 1 && s[j] == '.')
  }

  lemma MatchHasShape(s: string, i: int, j: int)
    requires 0 < i < |s| && i + 1 < j < |s| - 1 && s[i] == '@' && s[j] == '.'
    requires AllPlain(s[..i]) && AllPlain(s[i + 1..j]) && AllPlain(s[j + 1..])
    ensures forall k :: 0 <= k < |s| && k != i ==> Plain(s[k])
  {
    forall k | 0 <= k < |s| && k != i ensures Plain(s[k]) {
      if k < i {
        assert s[..i][k] == s[k];
      } else if k < j {
        assert s[i + 1..j][k - i - 1] == s[k];
      } else if k > j {
        assert s[j + 1..][k - j - 1] == s[k];
      }
    }
  }

  lemma ShapeHasMatch(s: string, i: int, j: int)
    requires 0 < i < |s| && i + 1 < j < |s| - 1 && s[i] == '@' && s[j] == '.'
    requires forall k :: 0 <= k < |s| ==> !IsWhitespace(s[k])
    requires forall k :: 0 <= k < |s| && k != i ==> s[k] != '@'
    ensures AllPlain(s[..i]) && AllPlain(s[i + 1..j]) && AllPlain(s[j + 1..])
  {
    var local, domain, last := s[..i], s[i + 1..j], s[j + 1..];
    forall k | 0 <= k < |local| ensures Plain(local[k]) { assert local[k] == s[k]; }
    forall k | 0 <= k < |domain| ensures Plain(domain[k]) { assert domain[k] == s[k + i + 1]; }
    forall k | 0 <= k < |last| ensures Plain(last[k]) { assert last[k] == s[k + j + 1]; }
  }

  /** The pattern accepts exactly the strings of that shape. */
  lemma EmailPatternIsShape(s: string)
    ensures IsValidEmail(s) <==> EmailShape(s)
  {
    if IsValidEmail(s) {
      var i, j :| 0 < i < |s| && i + 1 < j < |s| - 1 &&
        s[i] == '@' && s[j] == '.' &&
        AllPlain(s[..i]) && AllPlain(s[i + 1..j]) && AllPlain(s[j + 1..]);
      MatchHasShape(s, i, j);
      assert forall k :: 0 <= k < |s| ==> !IsWhitespace(s[k]) by {
        forall k | 0 <= k < |s| ensures !IsWhitespace(s[k]) {
          if k != i { assert Plain(s[k]); }
        }
      }
      assert s[j] == '.';
    }
    if EmailShape(s) {
      var i :| 0 < i < |s| && s[i] == '@' &&
         (forall k :: 0 <= k < |s| && k != i ==> s[k] != '@') &&
         (exists j :: i + 1 < j < |s| - 1 && s[j] == '.');
      var j :| i + 1 < j < |s| - 1 && s[j] == '.';
      ShapeHasMatch(s, i, j);
    }
  }

  /** A string with no `@` is refused. */
  lemma NoAtRefused(s: string)
    requires forall k :: 0 <= k < |s| ==> s[k] != '@'
    ensures !IsValidEmail(s)
  {
  }

  /** A string with white space anywhere is refused. */
  lemma WhitespaceRefused(s: string, k: int)
    requires 0 <= k < |s| && IsWhitespace(s[k])
    ensures !IsValidEmail(s)
  {
    EmailPatternIsShape(s);
  }

  lemma AcceptsAddress()
    ensures IsValidEmail("ana@blog.es")
  {
    var s := "ana@blog.es";
    ShapeHasMatch(s, 3, 8);
  }

  /** Three truncated addresses: no text after the only `.`, an empty
      local part, nothing between the `@` and the `.`. */
  lemma RefusesTruncated()
    ensures !IsValidEmail("ana@blog.")
    ensures !IsValidEmail("@blog.es")
    ensures !IsValidEmail("ana@.es")
  {
  }

  /** The pattern does not look at labels: an empty label is accepted
      when another `.` follows it. */
  lemma AcceptsEmptyLabels()
    ensures IsValidEmail("a@.b.c")
    ensures IsValidEmail("a@b..c")
  {
    ShapeHasMatch("a@.b.c", 1, 4);
    ShapeHasMatch("a@b..c", 1, 4);
  }
}
