/** The e-mail check applied before every write to the students table. */
module Email {
  import opened JsText

  /** A character of the class `[^\s@]`. */
  predicate IsAddressChar(c: char) {
    !IsWhitespace(c) && c != '@'
  }

  /** A non-empty run of `[^\s@]`, i.e. `[^\s@]+`. */
  predicate IsAddressRun(s: string) {
    |s| > 0 && forall k :: 0 <= k < |s| ==> IsAddressChar(s[k])
  }

  /** `/^[^\s@]+@[^\s@]+\.[^\s@]+$/.test(s)`: the address cuts, at an `@`
      at `at` and a `.` at `dot`, into three non-empty runs of `[^\s@]`. */
  predicate IsValidEmail(s: string) {
    exists at, dot :: 0 <= at < dot < |s| && EmailCutsAt(s, at, dot)
  }

  predicate EmailCutsAt(s: string, at: int, dot: int)
    requires 0 <= at < dot < |s|
  {
    s[at] == '@' && s[dot] == '.' &&
    IsAddressRun(s[..at]) && IsAddressRun(s[at + 1..dot]) && IsAddressRun(s[dot + 1..])
  }

  /** The address as a reader would describe it: no whitespace, exactly one
      `@` with something before it, and after it a `.` that is neither the
      first nor the last character of the domain. */
  predicate WellFormedAddress(s: string) {
    && (forall k :: 0 <= k < |s| ==> !IsWhitespace(s[k]))
    && CountChar(s, '@') == 1
    && exists at :: 0 < at < |s| && s[at] == '@' && HasInnerDot(s[at + 1..])
  }

  predicate HasInnerDot(d: string) {
    exists j :: 0 < j < |d| - 1 && d[j] == '.'
  }

  lemma {:induction false} NoCharNoCount(s: string, c: char)
    requires forall k :: 0 <= k < |s| ==> s[k] != c
    ensures CountChar(s, c) == 0
  {
    if |s| > 0 {
      NoCharNoCount(s[1..], c);
    }
  }

  /** Two occurrences of a character that occurs once are the same one. */
  lemma {:induction false} CountOneUnique(s: string, c: char, i: int, j: int)
    requires CountChar(s, c) == 1
    requires 0 <= i < j < |s| && s[i] == c
    ensures s[j] != c
  {
    assert s == s[..j] + s[j..];
    CountCharConcat(s[..j], s[j..], c);
    assert s[..j] == s[..i] + s[i..j];
    CountCharConcat(s[..i], s[i..j], c);
    assert CountChar(s[i..j], c) >= 1;
    assert CountChar(s[j..], c) == (if s[j] == c then 1 else 0) + CountChar(s[j + 1..], c);
  }

  /** The regular expression accepts exactly the well-formed addresses. */
  lemma EmailRegexIsWellFormedAddress(s: string)
    ensures IsValidEmail(s) <==> WellFormedAddress(s)
  {
    if IsValidEmail(s) {
      var at, dot :| 0 <= at < dot < |s| && EmailCutsAt(s, at, dot);
      RegexCutsGiveWellFormed(s, at, dot);
    }
    if WellFormedAddress(s) {
      var at :| 0 < at < |s| && s[at] == '@' && HasInnerDot(s[at + 1..]);
      var j :| 0 < j < |s[at + 1..]| - 1 && s[at + 1..][j] == '.';
      WellFormedGivesRegexCuts(s, at, at + 1 + j);
    }
  }

  lemma RegexCutsGiveWellFormed(s: string, at: int, dot: int)
    requires 0 <= at < dot < |s| && EmailCutsAt(s, at, dot)
    ensures WellFormedAddress(s)
  {
    var local, domain, tld := s[..at], s[at + 1..dot], s[dot + 1..];
    forall k | 0 <= k < |s| ensures !IsWhitespace(s[k]) {
      if k < at {
        assert s[k] == local[k];
      } else if at < k < dot {
        assert s[k] == domain[k - at - 1];
      } else if dot < k {
        assert s[k] == tld[k - dot - 1];
      }
    }
    assert s == local + [s[at]] + domain + [s[dot]] + tld;
    NoCharNoCount(local, '@');
    NoCharNoCount(domain, '@');
    NoCharNoCount(tld, '@');
    CountCharConcat(local + [s[at]] + domain + [s[dot]], tld, '@');
    CountCharConcat(local + [s[at]] + domain, [s[dot]], '@');
    CountCharConcat(local + [s[at]], domain, '@');
    CountCharConcat(local, [s[at]], '@');
    var d := s[at + 1..];
    assert d[dot - at - 1] == '.';
    assert HasInnerDot(d);
  }

  lemma WellFormedGivesRegexCuts(s: string, at: int, dot: int)
    requires WellFormedAddress(s)
    requires 0 < at && at + 1 < dot < |s| - 1 && s[at] == '@' && s[dot] == '.'
    ensures IsValidEmail(s)
  {
    forall k | 0 <= k < |s| && k != at ensures IsAddressChar(s[k]) {
      if s[k] == '@' {
        if k < at { CountOneUnique(s, '@', k, at); } else { CountOneUnique(s, '@', at, k); }
      }
    }
    assert IsAddressRun(s[..at]);
    assert IsAddressRun(s[at + 1..dot]);
    assert IsAddressRun(s[dot + 1..]);
    assert EmailCutsAt(s, at, dot);
  }

  /** An address with any whitespace in it is rejected. */
  lemma WhitespaceRejected(s: string, k: int)
    requires 0 <= k < |s| && IsWhitespace(s[k])
    ensures !IsValidEmail(s)
  {
    if IsValidEmail(s) {
      var at, dot :| 0 <= at < dot < |s| && EmailCutsAt(s, at, dot);
      RegexCutsGiveWellFormed(s, at, dot);
    }
  }

  /** Sample addresses, one accepted and three rejected. */
  lemma EmailExamples()
    ensures IsValidEmail("a@b.co")
    ensures !IsValidEmail("a@b")
    ensures !IsValidEmail("a b@c.com")
    ensures !IsValidEmail(" @b.com")
  {
    assert EmailCutsAt("a@b.co", 1, 3) by {
      assert "a@b.co"[..1] == "a";
      assert "a@b.co"[2..3] == "b";
      assert "a@b.co"[4..] == "co";
    }
    assert !IsValidEmail("a@b") by {
      forall at, dot | 0 <= at < dot < 3 ensures !EmailCutsAt("a@b", at, dot) {
        assert "a@b"[dot] != '.';
      }
    }
    WhitespaceRejected("a b@c.com", 1);
    WhitespaceRejected(" @b.com", 0);
  }
}
