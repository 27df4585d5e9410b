/**
  `toSnakeCase(separator:)` of `StringProtocol` (String++.swift).

  The Swift function scans the string once, keeping one boolean of look-ahead
  state, `separateOnUppercase`. Its effect is specified here position by
  position: `BreakBefore(s, sep, i)` says whether a separator goes in front of
  `s[i]`, and `SnakeCase` is the lowercased input with those separators
  inserted. `ToSnakeCase` is the scanner itself, proved to compute `SnakeCase`.
 */
module Snake {
  import opened Ascii
  import opened Sequences

  /**
    Whether a separator is emitted in front of `s[i]`: only in front of an
    uppercase letter that is not the first character; after a character that
    is not uppercase, unless that character is the separator itself; after an
    uppercase letter only when `s[i]` starts a lowercase word (the "L|Session"
    of "URLSession").
   */
  predicate BreakBefore(s: string, sep: char, i: nat)
    requires i < |s|
  {
    && 0 < i
    && IsUpper(s[i])
    && if IsUpper(s[i - 1]) then i + 1 < |s| && IsLower(s[i + 1]) else s[i - 1] != sep
  }

  /** The output produced for `s[i]`: an optional separator, then `s[i]` lowercased. */
  function SnakePiece(s: string, sep: char, i: nat): (r: string)
    requires i < |s|
  {
    (if BreakBefore(s, sep, i) then [sep] else []) + [Lower(s[i])]
  }

  /** The number of separators inserted in front of the first `n` characters. */
  function BreakCount(s: string, sep: char, n: nat): nat
    requires n <= |s|
  {
    if n == 0 then 0
    else BreakCount(s, sep, n - 1) + (if BreakBefore(s, sep, n - 1) then 1 else 0)
  }

  /** The output for the first `n` characters of `s`. */
  function SnakePrefix(s: string, sep: char, n: nat): (r: string)
    requires n <= |s|
    ensures |r| == n + BreakCount(s, sep, n)
  {
    if n == 0 then [] else SnakePrefix(s, sep, n - 1) + SnakePiece(s, sep, n - 1)
  }

  /** The specification of `toSnakeCase`: never shorter than the input, empty exactly when it is. */
  function SnakeCase(s: string, sep: char): (r: string)
    ensures |r| == |s| + BreakCount(s, sep, |s|)
    ensures r == [] <==> s == []
  {
    SnakePrefix(s, sep, |s|)
  }

  /** The Swift scanner, with its `separateOnUppercase` flag. */
  method ToSnakeCase(s: string, separator: char) returns (result: string)
    ensures result == SnakeCase(s, separator)
  {
    if |s| == 0 {
      return "";
    }
    result := "";
    // Whether an uppercase character seen next gets a separator in front.
    var separateOnUppercase := true;
    for i := 0 to |s|
      invariant result == SnakePrefix(s, separator, i)
      invariant 0 < i < |s| && IsUpper(s[i]) ==> (separateOnUppercase <==> BreakBefore(s, separator, i))
    {
      var character := s[i];
      if IsUpper(character) {
        if separateOnUppercase && |result| > 0 {
          result := result + [separator];
        }
        separateOnUppercase := i + 1 < |s| && IsUpper(s[i + 1]) && i + 2 < |s| && IsLower(s[i + 2]);
      } else {
        separateOnUppercase := character != separator;
      }
      result := result + [Lower(character)];
    }
  }

  lemma {:induction false} SnakePrefixExtends(s: string, sep: char, n: nat, m: nat)
    requires n <= m <= |s|
    ensures |SnakePrefix(s, sep, n)| <= |SnakePrefix(s, sep, m)|
    ensures SnakePrefix(s, sep, m)[..|SnakePrefix(s, sep, n)|] == SnakePrefix(s, sep, n)
  {
    if n < m {
      SnakePrefixExtends(s, sep, n, m - 1);
      var a, b := SnakePrefix(s, sep, m - 1), SnakePiece(s, sep, m - 1);
      assert SnakePrefix(s, sep, m) == a + b;
      assert (a + b)[..|a|] == a;
    }
  }

  /**
    Where everything lands in the output: `s[i]` lowercased sits at position
    `i + BreakCount(s, sep, i + 1)`, with an inserted separator just before it
    exactly when `BreakBefore(s, sep, i)`. Since the separators counted before
    `s[i]` are the only extra characters, deleting them leaves the lowercased
    input, in order.
   */
  lemma SnakeCaseLayout(s: string, sep: char, i: nat)
    requires i < |s|
    ensures var p := i + BreakCount(s, sep, i + 1);
            var r := SnakeCase(s, sep);
            && p < |r|
            && r[p] == Lower(s[i])
            && (BreakBefore(s, sep, i) ==> 0 < p && r[p - 1] == sep)
            && (!BreakBefore(s, sep, i) ==> BreakCount(s, sep, i + 1) == BreakCount(s, sep, i))
  {
    var pre := SnakePrefix(s, sep, i + 1);
    SnakePrefixExtends(s, sep, i + 1, |s|);
    assert pre == SnakePrefix(s, sep, i) + SnakePiece(s, sep, i);
  }

  /** The input with every character lowercased. */
  function LowerAll(s: string): (r: string)
    ensures |r| == |s|
    ensures forall k :: 0 <= k < |s| ==> r[k] == Lower(s[k])
  {
    if s == [] then [] else LowerAll(s[..|s| - 1]) + [Lower(s[|s| - 1])]
  }

  /** Whether a character differs from `sep`. */
  function Other(sep: char): char -> bool
  {
    c => c != sep
  }

  lemma {:induction false} SnakePrefixUnbroken(s: string, sep: char, n: nat)
    requires n <= |s|
    ensures Filter(SnakePrefix(s, sep, n), Other(sep)) == Filter(LowerAll(s[..n]), Other(sep))
  {
    if n > 0 {
      SnakePrefixUnbroken(s, sep, n - 1);
      SnakePrefixFiltered(s, sep, n);
      LowerAllPrefix(s, n);
      FilterAppend(LowerAll(s[..n - 1]), [Lower(s[n - 1])], Other(sep));
    }
  }

  /** Without separators, the output for `n` characters is that for `n - 1` and then character `n - 1` lowercased. */
  lemma SnakePrefixFiltered(s: string, sep: char, n: nat)
    requires 0 < n <= |s|
    ensures Filter(SnakePrefix(s, sep, n), Other(sep))
            == Filter(SnakePrefix(s, sep, n - 1), Other(sep)) + Filter([Lower(s[n - 1])], Other(sep))
  {
    FilterAppend(SnakePrefix(s, sep, n - 1), SnakePiece(s, sep, n - 1), Other(sep));
    SnakePieceUnbroken(s, sep, n - 1);
  }

  lemma LowerAllPrefix(s: string, n: nat)
    requires 0 < n <= |s|
    ensures LowerAll(s[..n]) == LowerAll(s[..n - 1]) + [Lower(s[n - 1])]
  {
    assert s[..n][..n - 1] == s[..n - 1];
  }

  /** Without its separators, the output for one character is that character lowercased, unless it is a separator. */
  lemma SnakePieceUnbroken(s: string, sep: char, i: nat)
    requires i < |s|
    ensures Filter(SnakePiece(s, sep, i), Other(sep)) == Filter([Lower(s[i])], Other(sep))
  {
    var l := [Lower(s[i])];
    if BreakBefore(s, sep, i) {
      FilterAppend([sep], l, Other(sep));
    } else {
      assert SnakePiece(s, sep, i) == l;
    }
  }

  /**
    Deleting the separators from the output leaves the lowercased input with
    its separators deleted: the scanner adds nothing but separators and
    drops and reorders nothing.
   */
  lemma SnakeCaseUnbroken(s: string, sep: char)
    ensures Filter(SnakeCase(s, sep), Other(sep)) == Filter(LowerAll(s), Other(sep))
  {
    SnakePrefixUnbroken(s, sep, |s|);
    assert s[..|s|] == s;
  }

  /** The first output character is the first input character, lowercased: no inserted separator leads. */
  lemma SnakeCaseFirst(s: string, sep: char)
    requires |s| > 0
    ensures SnakeCase(s, sep)[0] == Lower(s[0])
  {
    SnakeCaseLayout(s, sep, 0);
  }

  /**
    An inserted separator stands between `s[i - 1]` and `s[i]` lowercased,
    where `s[i]` is uppercase and `s[i - 1]` is not the separator.
   */
  lemma InsertedSeparator(s: string, sep: char, i: nat)
    requires !IsUpper(sep)
    requires i < |s| && BreakBefore(s, sep, i)
    ensures IsUpper(s[i]) && 0 < i && s[i - 1] != sep
    ensures var p := i + BreakCount(s, sep, i + 1);
            var r := SnakeCase(s, sep);
            && 2 <= p < |r|
            && r[p - 2] == Lower(s[i - 1]) && r[p - 1] == sep && r[p] == Lower(s[i])
  {
    SnakeCaseLayout(s, sep, i);
    SnakeCaseLayout(s, sep, i - 1);
  }

  /**
    The acronym rule: between two uppercase letters `s[i - 1]` and `s[i]` a
    separator appears only when `s[i]` is followed by a lowercase letter.
   */
  lemma AcronymRule(s: string, sep: char, i: nat)
    requires 0 < i < |s| && IsUpper(s[i - 1]) && IsUpper(s[i])
    ensures var p := i + BreakCount(s, sep, i + 1);
            var r := SnakeCase(s, sep);
            && 0 < p < |r|
            && r[p - 1] == if i + 1 < |s| && IsLower(s[i + 1]) then sep else Lower(s[i - 1])
  {
    SnakeCaseLayout(s, sep, i);
    SnakeCaseLayout(s, sep, i - 1);
  }

  lemma {:induction false} SnakePrefixNoUpper(s: string, sep: char, n: nat)
    requires !IsUpper(sep)
    requires n <= |s|
    ensures NoUpper(SnakePrefix(s, sep, n))
  {
    if n > 0 {
      SnakePrefixNoUpper(s, sep, n - 1);
    }
  }

  /** With a separator that is not uppercase, the output has no uppercase letter. */
  lemma SnakeCaseNoUpper(s: string, sep: char)
    requires !IsUpper(sep)
    ensures NoUpper(SnakeCase(s, sep))
  {
    SnakePrefixNoUpper(s, sep, |s|);
  }

  lemma {:induction false} SnakePrefixFixed(s: string, sep: char, n: nat)
    requires NoUpper(s)
    requires n <= |s|
    ensures SnakePrefix(s, sep, n) == s[..n]
  {
    if n > 0 {
      SnakePrefixFixed(s, sep, n - 1);
      assert s[..n] == s[..n - 1] + [s[n - 1]];
    }
  }

  /** A string without uppercase letters is its own snake case. */
  lemma SnakeCaseFixed(s: string, sep: char)
    requires NoUpper(s)
    ensures SnakeCase(s, sep) == s
  {
    SnakePrefixFixed(s, sep, |s|);
  }

  /** `toSnakeCase` is idempotent whenever the separator is not an uppercase letter. */
  lemma SnakeCaseIdempotent(s: string, sep: char)
    requires !IsUpper(sep)
    ensures SnakeCase(SnakeCase(s, sep), sep) == SnakeCase(s, sep)
  {
    SnakeCaseNoUpper(s, sep);
    SnakeCaseFixed(SnakeCase(s, sep), sep);
  }

  /** A lowercase-to-uppercase step starts a new word. */
  lemma SnakeCaseUserId()
    ensures SnakeCase("userId", '_') == "user_id"
  {
    var s := "userId";
    assert SnakePrefix(s, '_', 1) == "u";
    assert SnakePrefix(s, '_', 2) == "us";
    assert SnakePrefix(s, '_', 3) == "use";
    assert SnakePrefix(s, '_', 4) == "user";
    assert BreakBefore(s, '_', 4);
    assert SnakePrefix(s, '_', 5) == "user_i";
    assert SnakePrefix(s, '_', 6) == "user_id";
  }

  /** A trailing acronym stays one word. */
  lemma SnakeCaseUserID()
    ensures SnakeCase("userID", '_') == "user_id"
  {
    var s := "userID";
    assert SnakePrefix(s, '_', 1) == "u";
    assert SnakePrefix(s, '_', 2) == "us";
    assert SnakePrefix(s, '_', 3) == "use";
    assert SnakePrefix(s, '_', 4) == "user";
    assert BreakBefore(s, '_', 4);
    assert SnakePrefix(s, '_', 5) == "user_i";
    assert SnakePrefix(s, '_', 6) == "user_id";
  }

  /** A leading acronym ends before the letter that starts a lowercase word. */
  lemma SnakeCaseURLSession()
    ensures SnakeCase("URLSession", '_') == "url_session"
  {
    var s := "URLSession";
    assert SnakePrefix(s, '_', 1) == "u";
    assert SnakePrefix(s, '_', 2) == "ur";
    assert SnakePrefix(s, '_', 3) == "url";
    assert BreakBefore(s, '_', 3);
    assert SnakePrefix(s, '_', 4) == "url_s";
    assert SnakePrefix(s, '_', 5) == "url_se";
    assert SnakePrefix(s, '_', 6) == "url_ses";
    assert SnakePrefix(s, '_', 7) == "url_sess";
    assert SnakePrefix(s, '_', 8) == "url_sessi";
    assert SnakePrefix(s, '_', 9) == "url_sessio";
    assert SnakePrefix(s, '_', 10) == "url_session";
  }

  /** No second separator goes after an existing one. */
  lemma SnakeCaseAfterSeparator()
    ensures SnakeCase("foo_Bar", '_') == "foo_bar"
  {
    var s := "foo_Bar";
    assert SnakePrefix(s, '_', 1) == "f";
    assert SnakePrefix(s, '_', 2) == "fo";
    assert SnakePrefix(s, '_', 3) == "foo";
    assert SnakePrefix(s, '_', 4) == "foo_";
    assert SnakePrefix(s, '_', 5) == "foo_b";
    assert SnakePrefix(s, '_', 6) == "foo_ba";
    assert SnakePrefix(s, '_', 7) == "foo_bar";
  }
}
