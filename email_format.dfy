/**
 * The email pattern of the signup handler, `/^[^\s@]+@[^\s@]+\.[^\s@]+$/`,
 * given twice: as the language of the regular expression (three non-empty
 * parts around `@` and `.`) and as the scan the handler runs. The lemma
 * EmailCheckIsRegex shows the two agree on every string.
 */
module EmailFormat {

  /** JavaScript's `\s`: the ECMAScript WhiteSpace and LineTerminator characters. */
  predicate IsSpace(c: char)
  {
    || c == '\t' || c == '\n' || c == '\U{B}' || c == '\U{C}' || c == '\r' || c == ' '
    || c == '\U{A0}' || c == '\U{1680}' || ('\U{2000}' <= c <= '\U{200A}')
    || c == '\U{2028}' || c == '\U{2029}' || c == '\U{202F}' || c == '\U{205F}'
    || c == '\U{3000}' || c == '\U{FEFF}'
  }

  /** The character class `[^\s@]`. */
  predicate PartChar(c: char)
  {
    !IsSpace(c) && c != '@'
  }

  /** The repetition `[^\s@]+`. */
  predicate IsPart(p: string)
  {
    |p| > 0 && forall i :: 0 <= i < |p| ==> PartChar(p[i])
  }

  /** `s` is in the language of `^[^\s@]+@[^\s@]+\.[^\s@]+$`. */
  ghost predicate MatchesEmailRegex(s: string)
  {
    exists local, domain, tld {:trigger IsPart(local), IsPart(domain), IsPart(tld)} ::
      IsPart(local) && IsPart(domain) && IsPart(tld) && s == local + "@" + domain + "." + tld
  }

  /** No character of `s` other than the one at `at` is an `@`. */
  predicate OnlyAt(s: string, at: int)
  {
    forall k :: 0 <= k < |s| && k != at ==> s[k] != '@'
  }

  /**
   * The check as the handler applies it: no whitespace anywhere, exactly one
   * `@`, which is not the first character, and a `.` at least two characters
   * after the `@` that is not the last character.
   */
  predicate IsValidEmail(s: string)
  {
    && (forall k :: 0 <= k < |s| ==> !IsSpace(s[k]))
    && exists at :: 0 < at < |s| && s[at] == '@' && OnlyAt(s, at)
                    && exists dot :: at + 2 <= dot < |s| - 1 && s[dot] == '.'
  }

  /** The scan accepts exactly the strings the regular expression matches. */
  lemma EmailCheckIsRegex(s: string)
    ensures IsValidEmail(s) <==> MatchesEmailRegex(s)
  {
    if IsValidEmail(s) {
      var at :| 0 < at < |s| && s[at] == '@' && OnlyAt(s, at)
                 && exists dot :: at + 2 <= dot < |s| - 1 && s[dot] == '.';
      var dot :| at + 2 <= dot < |s| - 1 && s[dot] == '.';
      var local, domain, tld := s[..at], s[at + 1..dot], s[dot + 1..];
      assert s == local + "@" + domain + "." + tld;
      forall i | 0 <= i < |local| ensures PartChar(local[i]) {
        assert local[i] == s[i];
      }
      forall i | 0 <= i < |domain| ensures PartChar(domain[i]) {
        assert domain[i] == s[at + 1 + i];
      }
      forall i | 0 <= i < |tld| ensures PartChar(tld[i]) {
        assert tld[i] == s[dot + 1 + i];
      }
      assert IsPart(local) && IsPart(domain) && IsPart(tld);
    }
    if MatchesEmailRegex(s) {
      var local, domain, tld :| IsPart(local) && IsPart(domain) && IsPart(tld)
                                && s == local + "@" + domain + "." + tld;
      var at := |local|;
      var dot := |local| + 1 + |domain|;
      forall k | 0 <= k < |s| ensures !IsSpace(s[k]) && (k != at ==> s[k] != '@') {
        if k < at {
          assert s[k] == local[k];
        } else if k == at {
          assert s[k] == '@';
        } else if k < dot {
          assert s[k] == domain[k - at - 1];
        } else if k == dot {
          assert s[k] == '.';
        } else {
          assert s[k] == tld[k - dot - 1];
        }
      }
      assert s[at] == '@' && s[dot] == '.';
      assert OnlyAt(s, at);
    }
  }
}
