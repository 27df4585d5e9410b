/**
  How `toSnakeCase` and `toCamelCase` (String++.swift) undo each other.

  On identifiers made of lowercase ASCII words joined by single separators
  (with any leading and trailing separator runs), camel-casing and then
  snake-casing gives the identifier back, provided every word after the first
  has at least two letters. The restriction is needed: "a_b_c" camel-cases to
  "aBC", whose trailing capitals read as an acronym, so it snake-cases to
  "a_bc".
 */
module CaseRoundTrip {
  import opened Ascii
  import opened Sequences
  import opened Snake
  import opened Camel

  /** A separator in front of every uppercase letter, and every letter lowercased. */
  function BreakAtCapitals(t: string, sep: char): (r: string)
  {
    if t == [] then []
    else BreakAtCapitals(t[..|t| - 1], sep) + (if IsUpper(t[|t| - 1]) then [sep] else []) + [Lower(t[|t| - 1])]
  }

  /** Every uppercase letter of `t`, except possibly the first character, follows a lowercase letter. */
  predicate CapitalsAfterLower(t: string)
  {
    forall i :: 0 < i < |t| && IsUpper(t[i]) ==> IsLower(t[i - 1])
  }

  /** The words `ws`, each preceded by a separator. */
  function SeparatorPrefixed(ws: seq<string>, sep: char): string
  {
    if ws == [] then [] else [sep] + ws[0] + SeparatorPrefixed(ws[1..], sep)
  }

  lemma {:induction false} BreakAtCapitalsAppend(a: string, b: string, sep: char)
    ensures BreakAtCapitals(a + b, sep) == BreakAtCapitals(a, sep) + BreakAtCapitals(b, sep)
  {
    if b == [] {
      assert a + b == a;
    } else {
      var b' := b[..|b| - 1];
      assert (a + b)[..|a + b| - 1] == a + b';
      assert (a + b)[|a + b| - 1] == b[|b| - 1];
      BreakAtCapitalsAppend(a, b', sep);
    }
  }

  lemma {:induction false} BreakAtCapitalsFixed(t: string, sep: char)
    requires NoUpper(t)
    ensures BreakAtCapitals(t, sep) == t
  {
    if t != [] {
      BreakAtCapitalsFixed(t[..|t| - 1], sep);
      assert t == t[..|t| - 1] + [t[|t| - 1]];
    }
  }

  lemma {:induction false} SnakePrefixAtCapitals(t: string, sep: char, n: nat)
    requires !IsLower(sep)
    requires n <= |t|
    requires t == [] || !IsUpper(t[0])
    requires CapitalsAfterLower(t)
    ensures SnakePrefix(t, sep, n) == BreakAtCapitals(t[..n], sep)
  {
    if n > 0 {
      SnakePrefixAtCapitals(t, sep, n - 1);
      assert t[..n][..n - 1] == t[..n - 1];
      assert t[..n][n - 1] == t[n - 1];
      assert BreakBefore(t, sep, n - 1) <==> IsUpper(t[n - 1]);
    }
  }

  /**
    When every capital follows a lowercase letter, `toSnakeCase` simply puts
    a separator in front of each capital: no acronym is in sight.
   */
  lemma SnakeCaseAtCapitals(t: string, sep: char)
    requires !IsLower(sep)
    requires t == [] || !IsUpper(t[0])
    requires CapitalsAfterLower(t)
    ensures SnakeCase(t, sep) == BreakAtCapitals(t, sep)
  {
    SnakePrefixAtCapitals(t, sep, |t|);
    assert t[..|t|] == t;
  }

  lemma CapitalsAfterLowerAppend(a: string, b: string)
    requires CapitalsAfterLower(a) && CapitalsAfterLower(b)
    requires a != [] && b != [] && IsUpper(b[0]) ==> IsLower(a[|a| - 1])
    ensures CapitalsAfterLower(a + b)
  {
    var t := a + b;
    forall i | 0 < i < |t| && IsUpper(t[i]) ensures IsLower(t[i - 1]) {
      if i < |a| {
        assert t[i] == a[i] && t[i - 1] == a[i - 1];
      } else if i == |a| {
        assert t[i] == b[0] && t[i - 1] == a[|a| - 1];
      } else {
        assert t[i] == b[i - |a|] && t[i - 1] == b[i - 1 - |a|];
      }
    }
  }

  lemma NoUpperAppend(a: string, b: string)
    requires NoUpper(a) && NoUpper(b)
    ensures NoUpper(a + b)
  {
    var t := a + b;
    forall k | 0 <= k < |t| ensures !IsUpper(t[k]) {
      if k < |a| {
        assert t[k] == a[k];
      } else {
        assert t[k] == b[k - |a|];
      }
    }
  }

  lemma {:induction false} JoinWithPrefixed(ws: seq<string>, sep: char)
    requires |ws| >= 1
    ensures JoinWith(ws, sep) == ws[0] + SeparatorPrefixed(ws[1..], sep)
  {
    if |ws| > 1 {
      JoinWithPrefixed(ws[1..], sep);
      assert ws[1..][1..] == ws[2..];
    }
  }

  /** What snake-casing one encapitalized later word gives back: a separator, then the word. */
  lemma EncapitalizedWord(w: string, sep: char)
    requires LowerWord(w) && |w| >= 2
    ensures var e := Encapitalized(w);
            && CapitalsAfterLower(e)
            && IsUpper(e[0]) && IsLower(e[|e| - 1])
            && BreakAtCapitals(e, sep) == [sep] + w
  {
    var e := Encapitalized(w);
    assert e == [Upper(w[0])] + w[1..];
    assert NoUpper(w[1..]);
    CaseInverses(w[0]);
    BreakEncapitalized(w, sep);
  }

  lemma BreakEncapitalized(w: string, sep: char)
    requires LowerWord(w) && |w| >= 2
    ensures BreakAtCapitals(Encapitalized(w), sep) == [sep] + w
  {
    assert Encapitalized(w) == [Upper(w[0])] + w[1..];
    assert NoUpper(w[1..]);
    BreakAtCapitalsFixed(w[1..], sep);
    BreakAtCapitalsAppend([Upper(w[0])], w[1..], sep);
    BreakCapital(w[0], sep);
    assert w == [w[0]] + w[1..];
  }

  lemma BreakCapital(c: char, sep: char)
    requires IsLower(c)
    ensures BreakAtCapitals([Upper(c)], sep) == [sep, c]
  {
    assert [Upper(c)][..0] == [];
    CaseInverses(c);
  }

  /** The encapitalized later words, joined: capitals only at word starts, each after a lowercase letter. */
  lemma {:induction false} EncapitalizedWords(ws: seq<string>, sep: char)
    requires forall i :: 0 <= i < |ws| ==> LowerWord(ws[i]) && |ws[i]| >= 2
    ensures var e := ConcatAll(MapEncapitalized(ws));
            && CapitalsAfterLower(e)
            && (e != [] ==> IsUpper(e[0]) && IsLower(e[|e| - 1]))
            && BreakAtCapitals(e, sep) == SeparatorPrefixed(ws, sep)
  {
    if ws != [] {
      EncapitalizedWords(ws[1..], sep);
      EncapitalizedWord(ws[0], sep);
      var head, rest := Encapitalized(ws[0]), ConcatAll(MapEncapitalized(ws[1..]));
      assert MapEncapitalized(ws)[1..] == MapEncapitalized(ws[1..]);
      assert ConcatAll(MapEncapitalized(ws)) == head + rest;
      CapitalsAfterLowerAppend(head, rest);
      BreakAtCapitalsAppend(head, rest, sep);
    }
  }

  /** Snake-casing the camel-cased pieces one by one gives back the words joined by separators. */
  lemma BreakCamelPieces(front: string, ws: seq<string>, trail: string, sep: char)
    requires NoUpper(front) && NoUpper(trail)
    requires |ws| >= 1
    requires forall i :: 0 <= i < |ws| ==> LowerWord(ws[i]) && |ws[i]| >= 2
    ensures var e := ConcatAll(MapEncapitalized(ws));
            BreakAtCapitals(front + e + trail, sep) == front + SeparatorPrefixed(ws, sep) + trail
  {
    var e := ConcatAll(MapEncapitalized(ws));
    EncapitalizedWords(ws, sep);
    BreakAtCapitalsAppend(front + e, trail, sep);
    BreakAtCapitalsAppend(front, e, sep);
    BreakAtCapitalsFixed(front, sep);
    BreakAtCapitalsFixed(trail, sep);
  }

  /** In the camel-cased pieces every capital starts a later word and follows a lowercase letter. */
  lemma CamelPiecesCapitals(lead: string, w: string, ws: seq<string>, trail: string)
    requires NoUpper(lead) && NoUpper(trail)
    requires LowerWord(w)
    requires |ws| >= 1
    requires forall i :: 0 <= i < |ws| ==> LowerWord(ws[i]) && |ws[i]| >= 2
    ensures var c := lead + w + ConcatAll(MapEncapitalized(ws)) + trail;
            !IsUpper(c[0]) && CapitalsAfterLower(c)
  {
    var e := ConcatAll(MapEncapitalized(ws));
    var front := lead + w;
    EncapitalizedWords(ws, ' ');
    NoUpperAppend(lead, w);
    assert front[|front| - 1] == w[|w| - 1];
    assert CapitalsAfterLower(front);
    assert CapitalsAfterLower(trail);
    CapitalsAfterLowerAppend(front, e);
    CapitalsAfterLowerAppend(front + e, trail);
    assert (front + e + trail)[0] == front[0];
  }

  /** On the camel-cased form of two or more words, `toSnakeCase` only breaks before capitals. */
  lemma SnakeCaseOfCamelWordsAtCapitals(lead: string, ws: seq<string>, trail: string, sep: char)
    requires !IsLetter(sep)
    requires forall k :: 0 <= k < |lead| ==> lead[k] == sep
    requires forall k :: 0 <= k < |trail| ==> trail[k] == sep
    requires |ws| >= 2
    requires forall i :: 0 <= i < |ws| ==> LowerWord(ws[i])
    requires forall i :: 1 <= i < |ws| ==> |ws[i]| >= 2
    ensures var c := lead + ws[0] + ConcatAll(MapEncapitalized(ws[1..])) + trail;
            SnakeCase(c, sep) == BreakAtCapitals(c, sep)
  {
    var tail := ws[1..];
    var c := lead + ws[0] + ConcatAll(MapEncapitalized(tail)) + trail;
    assert NoUpper(lead) && NoUpper(trail);
    assert forall i :: 0 <= i < |tail| ==> LowerWord(tail[i]) && |tail[i]| >= 2;
    CamelPiecesCapitals(lead, ws[0], tail, trail);
    SnakeCaseAtCapitals(c, sep);
  }

  /** Breaking the camel-cased form of two or more words before its capitals restores the separators. */
  lemma BreakAtCapitalsOfCamelWords(lead: string, ws: seq<string>, trail: string, sep: char)
    requires !IsLetter(sep)
    requires forall k :: 0 <= k < |lead| ==> lead[k] == sep
    requires forall k :: 0 <= k < |trail| ==> trail[k] == sep
    requires |ws| >= 2
    requires forall i :: 0 <= i < |ws| ==> LowerWord(ws[i])
    requires forall i :: 1 <= i < |ws| ==> |ws[i]| >= 2
    ensures BreakAtCapitals(lead + ws[0] + ConcatAll(MapEncapitalized(ws[1..])) + trail, sep)
            == lead + JoinWith(ws, sep) + trail
  {
    var tail := ws[1..];
    assert NoUpper(lead) && NoUpper(trail);
    assert forall i :: 0 <= i < |tail| ==> LowerWord(tail[i]) && |tail[i]| >= 2;
    var front := lead + ws[0];
    assert NoUpper(front) by { NoUpperAppend(lead, ws[0]); }
    BreakCamelPieces(front, tail, trail, sep);
    JoinWithPrefixed(ws, sep);
    Regroup(lead, ws[0], SeparatorPrefixed(tail, sep), trail);
  }

  lemma Regroup(a: string, b: string, c: string, d: string)
    ensures a + (b + c) + d == a + b + c + d
  {
  }

  /**
    The round trip: `toSnakeCase(toCamelCase(x)) == x` for x made of
    lowercase ASCII words joined by single separators, framed by any leading
    and trailing separator runs, when every word after the first has at least
    two letters and the separator is not a letter.
   */
  lemma SnakeCaseUndoesCamelCase(lead: string, ws: seq<string>, trail: string, sep: char)
    requires !IsLetter(sep)
    requires forall k :: 0 <= k < |lead| ==> lead[k] == sep
    requires forall k :: 0 <= k < |trail| ==> trail[k] == sep
    requires forall i :: 0 <= i < |ws| ==> LowerWord(ws[i])
    requires forall i :: 1 <= i < |ws| ==> |ws[i]| >= 2
    ensures var x := lead + JoinWith(ws, sep) + trail;
            SnakeCase(CamelCase(x, sep), sep) == x
  {
    var x := lead + JoinWith(ws, sep) + trail;
    if ws == [] {
      assert x == lead + trail;
      assert forall k :: 0 <= k < |x| ==> x[k] == sep;
      assert CamelCase(x, sep) == x;
      SnakeCaseFixed(x, sep);
    } else {
      forall i | 0 <= i < |ws| ensures ws[i] != [] && sep !in ws[i] { }
      CamelCaseOfWords(x, lead, ws, trail, sep);
      if |ws| == 1 {
        assert NoUpper(x) by {
          assert NoUpper(lead) && NoUpper(trail);
          NoUpperAppend(lead, ws[0]);
          NoUpperAppend(lead + ws[0], trail);
        }
        SnakeCaseFixed(x, sep);
      } else {
        CapitalizationKeeps(ws[0]);
        SnakeCaseOfCamelWordsAtCapitals(lead, ws, trail, sep);
        BreakAtCapitalsOfCamelWords(lead, ws, trail, sep);
      }
    }
  }

  /**
    The other direction: `toCamelCase(toSnakeCase(y)) == y` on every
    identifier `y` that camel-casing such words produces.
   */
  lemma CamelCaseUndoesSnakeCase(lead: string, ws: seq<string>, trail: string, sep: char)
    requires !IsLetter(sep)
    requires forall k :: 0 <= k < |lead| ==> lead[k] == sep
    requires forall k :: 0 <= k < |trail| ==> trail[k] == sep
    requires forall i :: 0 <= i < |ws| ==> LowerWord(ws[i])
    requires forall i :: 1 <= i < |ws| ==> |ws[i]| >= 2
    ensures var y := CamelCase(lead + JoinWith(ws, sep) + trail, sep);
            CamelCase(SnakeCase(y, sep), sep) == y
  {
    SnakeCaseUndoesCamelCase(lead, ws, trail, sep);
  }

  lemma CamelCaseOneLetterWords(s: string)
    requires s == "a_b_c"
    ensures CamelCase(s, '_') == "aBC"
  {
    var ws := ["a", "b", "c"];
    assert JoinWith(ws, '_') == "a_b_c" by {
      assert JoinWith(ws[1..], '_') == "b_c" by {
        assert JoinWith(ws[1..][1..], '_') == "c";
      }
    }
    assert s == "" + JoinWith(ws, '_') + "";
    assert Decapitalized("a") == "a";
    assert ConcatAll(MapEncapitalized(["b", "c"])) == "BC" by {
      assert Encapitalized("b") == "B" && Encapitalized("c") == "C";
      assert MapEncapitalized(["b", "c"]) == ["B", "C"];
    }
    assert ws[0] == "a" && ws[1..] == ["b", "c"];
    assert "" + Decapitalized("a") + "BC" + "" == "aBC";
    CamelCaseOfWords(s, "", ws, "", '_');
  }

  lemma SnakeCaseTrailingCapitals()
    ensures SnakeCase("aBC", '_') == "a_bc"
  {
    var t := "aBC";
    assert SnakePrefix(t, '_', 1) == "a";
    assert BreakBefore(t, '_', 1);
    assert SnakePrefix(t, '_', 2) == "a_b";
    assert SnakePrefix(t, '_', 3) == "a_bc";
  }

  /** Why later words need two letters: "a_b_c" camel-cases to "aBC", which snake-cases to "a_bc". */
  lemma RoundTripNeedsLongWords(s: string)
    requires s == "a_b_c"
    ensures SnakeCase(CamelCase(s, '_'), '_') == "a_bc" != s
  {
    CamelCaseOneLetterWords(s);
    SnakeCaseTrailingCapitals();
  }
}
