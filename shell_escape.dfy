/**
 * The shell escaper: a single left-to-right pass over the original text that
 * puts a backslash before each backslash, double quote, backtick and dollar
 * sign, so that the text can sit inside a double-quoted shell argument.
 */
module ShellEscape {

  /** The lookup table of the escaper: each special character and what it becomes. */
  const ShellEscapeReplacements: map<char, string> :=
    map['"' := "\\\"", '`' := "\\`", '$' := "\\$", '\\' := "\\\\"]

  /** The character class `[\\"`$]` of the global regular expression. */
  predicate IsSpecial(c: char) {
    c == '\\' || c == '"' || c == '`' || c == '$'
  }

  /** The regular expression matches exactly the keys of the table, and each key becomes a backslash and itself. */
  lemma ReplacementsAreBackslashPrefixed()
    ensures forall c :: IsSpecial(c) <==> c in ShellEscapeReplacements
    ensures forall c :: c in ShellEscapeReplacements ==> ShellEscapeReplacements[c] == ['\\', c]
  {
  }

  /** What one character of the input turns into. */
  function EscapeChar(c: char): (r: string)
    ensures IsSpecial(c) ==> r == ['\\', c]
    ensures !IsSpecial(c) ==> r == [c]
  {
    if IsSpecial(c) then ShellEscapeReplacements[c] else [c]
  }

  function EscapeForShell(inputString: string): string
    decreases |inputString|
  {
    if inputString == [] then []
    else EscapeChar(inputString[0]) + EscapeForShell(inputString[1..])
  }

  /** The number of special characters in `s`. */
  function SpecialCount(s: string): nat
    decreases |s|
  {
    if s == [] then 0 else (if IsSpecial(s[0]) then 1 else 0) + SpecialCount(s[1..])
  }

  /** Drops the backslash in front of each escaped pair; the inverse of escaping. */
  function Unescape(s: string): string
    decreases |s|
  {
    if s == [] then []
    else if |s| >= 2 && s[0] == '\\' then [s[1]] + Unescape(s[2..])
    else [s[0]] + Unescape(s[1..])
  }

  /** Each special character adds exactly one character to the output. */
  lemma {:induction false} EscapeLength(s: string)
    ensures |EscapeForShell(s)| == |s| + SpecialCount(s)
    decreases |s|
  {
    if s != [] {
      EscapeLength(s[1..]);
    }
  }

  /** Escaping distributes over concatenation: the pass never looks across characters. */
  lemma {:induction false} EscapeAppend(a: string, b: string)
    ensures EscapeForShell(a + b) == EscapeForShell(a) + EscapeForShell(b)
    decreases |a|
  {
    if a == [] {
      assert a + b == b;
    } else {
      assert (a + b)[0] == a[0];
      assert (a + b)[1..] == a[1..] + b;
      EscapeAppend(a[1..], b);
    }
  }

  /** Removing the backslash of every escaped pair recovers the input. */
  lemma {:induction false} UnescapeEscape(s: string)
    ensures Unescape(EscapeForShell(s)) == s
    decreases |s|
  {
    if s != [] {
      var rest := EscapeForShell(s[1..]);
      UnescapeEscape(s[1..]);
      if IsSpecial(s[0]) {
        var e := ['\\', s[0]] + rest;
        assert EscapeForShell(s) == e;
        assert e[2..] == rest;
      } else {
        var e := [s[0]] + rest;
        assert EscapeForShell(s) == e;
        assert e[1..] == rest;
      }
      assert s == [s[0]] + s[1..];
    }
  }

  /** Escaping leaves a string alone exactly when it holds none of the four special characters. */
  lemma {:induction false} EscapeIdentityIff(s: string)
    ensures EscapeForShell(s) == s <==> forall k :: 0 <= k < |s| ==> !IsSpecial(s[k])
    decreases |s|
  {
    EscapeLength(s);
    SpecialCountZero(s);
    if s != [] && forall k :: 0 <= k < |s| ==> !IsSpecial(s[k]) {
      assert forall k :: 0 <= k < |s[1..]| ==> !IsSpecial(s[1..][k]) by {
        forall k | 0 <= k < |s[1..]| ensures !IsSpecial(s[1..][k]) {
          assert s[1..][k] == s[k + 1];
        }
      }
      EscapeIdentityIff(s[1..]);
      assert s == [s[0]] + s[1..];
    }
  }

  lemma {:induction false} SpecialCountZero(s: string)
    ensures SpecialCount(s) == 0 <==> forall k :: 0 <= k < |s| ==> !IsSpecial(s[k])
    decreases |s|
  {
    if s != [] {
      SpecialCountZero(s[1..]);
      if SpecialCount(s) == 0 {
        forall k | 0 <= k < |s| ensures !IsSpecial(s[k]) {
          if k > 0 { assert s[k] == s[1..][k - 1]; }
        }
      } else if !IsSpecial(s[0]) {
        var k :| 0 <= k < |s[1..]| && IsSpecial(s[1..][k]);
        assert s[k + 1] == s[1..][k];
      }
    }
  }

  /** Whitespace, newlines and indentation pass through untouched. */
  lemma EscapeKeepsWhitespace(s: string)
    requires forall k :: 0 <= k < |s| ==> s[k] == ' ' || s[k] == '\t' || s[k] == '\n' || s[k] == '\r'
    ensures EscapeForShell(s) == s
  {
    EscapeIdentityIff(s);
  }

  /** Escaping is not idempotent: a double quote escaped twice is not the same as escaped once. */
  lemma EscapeNotIdempotent()
    ensures EscapeForShell(EscapeForShell("\"")) != EscapeForShell("\"")
  {
    EscapeLength("\"");
    EscapeLength(EscapeForShell("\""));
    assert EscapeForShell("\"") == "\\\"" by {
      assert "\""[1..] == [];
    }
    assert SpecialCount("\\\"") == 2 by {
      assert "\\\""[1..] == "\"";
      assert "\""[1..] == [];
    }
  }

  lemma EscapeEmpty()
    ensures EscapeForShell("") == ""
  {
  }

  lemma EscapeOneChar(c: char)
    ensures EscapeForShell([c]) == EscapeChar(c)
  {
    assert [c][1..] == [];
  }

  /** From the escaping test suite: double quotes around a plain word are escaped and the word is kept. */
  lemma EscapeQuotedWord(word: string)
    requires forall k :: 0 <= k < |word| ==> !IsSpecial(word[k])
    ensures EscapeForShell(['"'] + word + ['"']) == ['\\', '"'] + word + ['\\', '"']
  {
    EscapeIdentityIff(word);
    EscapeOneChar('"');
    EscapeAppend(['"'] + word, ['"']);
    EscapeAppend(['"'], word);
  }

  /** From the escaping test suite: a dollar sign is escaped so that the variable is not expanded. */
  lemma EscapeDollar()
    ensures EscapeForShell("$PATH") == "\\$PATH"
  {
    var name := "PATH";
    EscapeIdentityIff(name);
    EscapeOneChar('$');
    EscapeAppend("$", name);
    assert "$PATH" == "$" + name;
  }
}
