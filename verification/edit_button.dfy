/** The escaping that puts a student's name and email into the inline
    `onclick` handler of the page's Edit button, as single-quoted
    JavaScript string literals. */
module EditButton {
  import opened Wrappers
  import opened JsText

  /** The escape as the page applies it: every `'` becomes `\'`, and every
      other character, a backslash included, is left as it is. */
  function EscapeQuotes(s: string): (e: string)
    ensures |e| == |s| + CountChar(s, '\'')
  {
    if |s| == 0 then [] else (if s[0] == '\'' then "\\'" else [s[0]]) + EscapeQuotes(s[1..])
  }

  /** Every quote the escape writes has a backslash right before it. */
  lemma {:induction false} EscapedQuotesArePreceded(s: string)
    ensures var e := EscapeQuotes(s);
      forall i :: 0 <= i < |e| && e[i] == '\'' ==> 0 < i && e[i - 1] == '\\'
  {
    if |s| > 0 {
      EscapedQuotesArePreceded(s[1..]);
      var head := if s[0] == '\'' then "\\'" else [s[0]];
      var e := EscapeQuotes(s);
      assert e == head + EscapeQuotes(s[1..]);
      forall i | 0 <= i < |e| && e[i] == '\''
        ensures 0 < i && e[i - 1] == '\\'
      {
        var tail := EscapeQuotes(s[1..]);
        if i >= |head| {
          var j := i - |head|;
          assert tail[j] == e[i];
          assert e[i - 1] == tail[j - 1];
        } else {
          assert head[i] == '\'';
        }
      }
    }
  }

  /** Reading back the page's escape: `\'` stands for `'`, anything else
      for itself. */
  function UnescapeQuotes(t: string): string {
    if |t| == 0 then []
    else if |t| >= 2 && t[0] == '\\' && t[1] == '\'' then "'" + UnescapeQuotes(t[2..])
    else [t[0]] + UnescapeQuotes(t[1..])
  }

  /** The escape only inserts backslashes before quotes: dropping them
      gives the text back. */
  lemma {:induction false} UnescapeEscapeQuotes(s: string)
    ensures UnescapeQuotes(EscapeQuotes(s)) == s
  {
    if |s| > 0 {
      var tail := EscapeQuotes(s[1..]);
      UnescapeEscapeQuotes(s[1..]);
      if s[0] == '\'' {
        assert EscapeQuotes(s) == "\\'" + tail;
        assert (EscapeQuotes(s))[2..] == tail;
      } else {
        assert EscapeQuotes(s) == [s[0]] + tail;
        assert |tail| > 0 ==> tail[0] != '\'' by {
          if |s[1..]| > 0 {
            assert tail == (if s[1] == '\'' then "\\'" else [s[1]]) + EscapeQuotes(s[2..]);
          }
        }
        assert (EscapeQuotes(s))[1..] == tail;
      }
    }
  }

  predicate IsLineTerminator(c: char) {
    c == '\n' || c == '\r' || c == '\U{2028}' || c == '\U{2029}'
  }

  /** The character a JavaScript escape `\c` stands for. The escapes that
      take digits (octal, `\0`, `\x`, `\u`) and line continuations are not
      read by this model: None. */
  function EscapedChar(c: char): Option<char> {
    match c
    case 'b' => Some('\U{8}')
    case 't' => Some('\t')
    case 'n' => Some('\n')
    case 'v' => Some('\U{B}')
    case 'f' => Some('\U{C}')
    case 'r' => Some('\r')
    case _ =>
      if IsDecimalDigit(c) || c == 'x' || c == 'u' || IsLineTerminator(c) then None
      else Some(c)
  }

  function Extend(c: char, width: nat, r: Option<(string, nat)>): Option<(string, nat)> {
    match r
    case None => None
    case Some((v, n)) => Some(([c] + v, n + width))
  }

  /** How the browser reads a single-quoted JavaScript string literal, from
      the text after its opening quote: the value, and how many characters
      the literal takes up to and including its closing quote; None when
      the text does not continue as such a literal (no closing quote, a raw
      line break, an escape this model does not read). */
  function ReadSingleQuoted(t: string): Option<(string, nat)>
    decreases |t|
  {
    if |t| == 0 then None
    else if t[0] == '\'' then Some(([], 1))
    else if t[0] == '\n' || t[0] == '\r' then None
    else if t[0] == '\\' then
      if |t| == 1 then None
      else match EscapedChar(t[1])
        case None => None
        case Some(c) => Extend(c, 2, ReadSingleQuoted(t[2..]))
    else Extend(t[0], 1, ReadSingleQuoted(t[1..]))
  }

  /** A literal the reader accepts ends at a closing quote within the text. */
  lemma {:induction false} ReadSingleQuotedEndsAtQuote(t: string)
    ensures var r := ReadSingleQuoted(t);
      r.Some? ==> 0 < r.value.1 <= |t| && t[r.value.1 - 1] == '\''
    decreases |t|
  {
    if |t| > 0 && t[0] != '\'' && t[0] != '\n' && t[0] != '\r' {
      var w := if t[0] == '\\' then 2 else 1;
      if w <= |t| {
        ReadSingleQuotedEndsAtQuote(t[w..]);
        var r := ReadSingleQuoted(t[w..]);
        if r.Some? {
          assert t[w..][r.value.1 - 1] == t[r.value.1 + w - 1];
        }
      }
    }
  }

  /** A name that is a single backslash: its escaped text leaves the
      closing quote escaped, so the literal does not end with the name and
      whatever the browser reads is not the name. */
  lemma BackslashEscapesClosingQuote(rest: string)
    ensures var t := EscapeQuotes("\\") + "'" + rest;
      ReadSingleQuoted(t) != Some(("\\", |EscapeQuotes("\\")| + 1))
  {
    var t := EscapeQuotes("\\") + "'" + rest;
    assert EscapeQuotes("\\") == "\\";
    assert t[0] == '\\' && t[1] == '\'';
    var r := ReadSingleQuoted(t);
    assert r == Extend('\'', 2, ReadSingleQuoted(t[2..]));
    if r.Some? {
      assert r.value.0[0] == '\'';
    }
  }

  /** A name ending in a backslash and a quote: the escaped text `\\'`
      closes the literal after one backslash, one character before the
      name's text ends, and the rest of the button's handler is then read
      as code. */
  lemma BackslashQuoteClosesEarly(rest: string)
    ensures var e := EscapeQuotes("\\'");
      |e| + 1 == 4 && ReadSingleQuoted(e + "'" + rest) == Some(("\\", 3))
  {
    var e := EscapeQuotes("\\'");
    assert EscapeQuotes("'") == "\\'";
    assert e == "\\\\'";
    var t := e + "'" + rest;
    assert t[0] == '\\' && t[1] == '\\' && t[2] == '\'';
    assert EscapedChar('\\') == Some('\\');
    assert t[2..][0] == '\'';
    assert ReadSingleQuoted(t[2..]) == Some(([], 1));
    assert ReadSingleQuoted(t) == Extend('\\', 2, Some(([], 1)));
    assert ['\\'] + [] == "\\";
  }

  /** The escape a single-quoted literal needs: the quote, the backslash
      and the two line breaks a literal cannot hold raw. */
  function EscapeChar(c: char): string {
    if c == '\'' then "\\'"
    else if c == '\\' then "\\\\"
    else if c == '\n' then "\\n"
    else if c == '\r' then "\\r"
    else [c]
  }

  function EscapeForLiteral(s: string): (e: string)
    ensures |e| == |s| + CountChar(s, '\'') + CountChar(s, '\\') + CountChar(s, '\n') + CountChar(s, '\r')
  {
    if |s| == 0 then [] else EscapeChar(s[0]) + EscapeForLiteral(s[1..])
  }

  /** Reading one escaped character in front of a literal's remainder. */
  lemma ReadEscapedChar(c: char, tail: string, v: string, n: nat)
    requires ReadSingleQuoted(tail) == Some((v, n))
    ensures ReadSingleQuoted(EscapeChar(c) + tail) == Some(([c] + v, n + |EscapeChar(c)|))
  {
    var t := EscapeChar(c) + tail;
    if |EscapeChar(c)| == 2 {
      assert t[2..] == tail;
      if c == '\'' {
        assert EscapedChar(t[1]) == Some('\'');
      } else if c == '\\' {
        assert EscapedChar(t[1]) == Some('\\');
      } else if c == '\n' {
        assert EscapedChar(t[1]) == Some('\n');
      } else {
        assert EscapedChar(t[1]) == Some('\r');
      }
    } else {
      assert t[1..] == tail;
    }
  }

  /** One step of ReadEscapedLiteral: an escaped character in front of an
      escaped text that reads back. */
  lemma ReadEscapedStep(c: char, e: string, v: string, after: string)
    requires ReadSingleQuoted(e + after) == Some((v, |e| + 1))
    ensures ReadSingleQuoted(EscapeChar(c) + e + after) == Some(([c] + v, |EscapeChar(c) + e| + 1))
  {
    ReadEscapedChar(c, e + after, v, |e| + 1);
    assert EscapeChar(c) + e + after == EscapeChar(c) + (e + after);
  }

  /** With the corrected escape, the browser reads back exactly the name or
      e-mail, and the literal closes at the quote the page writes after it,
      whatever follows that quote. */
  lemma {:induction false} ReadEscapedLiteral(s: string, after: string)
    requires |after| > 0 && after[0] == '\''
    ensures ReadSingleQuoted(EscapeForLiteral(s) + after) == Some((s, |EscapeForLiteral(s)| + 1))
  {
    if |s| == 0 {
      assert EscapeForLiteral(s) + after == after;
    } else {
      ReadEscapedLiteral(s[1..], after);
      ReadEscapedStep(s[0], EscapeForLiteral(s[1..]), s[1..], after);
      assert EscapeForLiteral(s) == EscapeChar(s[0]) + EscapeForLiteral(s[1..]);
      assert [s[0]] + s[1..] == s;
    }
  }

  /** The correction changes nothing for text without a backslash or a
      line break: there the page's escape already reads back exactly. */
  lemma {:induction false} EscapesAgreeWithoutBackslash(s: string)
    requires forall i :: 0 <= i < |s| ==> s[i] != '\\' && s[i] != '\n' && s[i] != '\r'
    ensures EscapeQuotes(s) == EscapeForLiteral(s)
  {
    if |s| > 0 {
      EscapesAgreeWithoutBackslash(s[1..]);
    }
  }
}
