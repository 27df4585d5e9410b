/**
  `toCamelCase(separator:)` and the `decapitalized` / `encapitalized`
  helpers of `StringProtocol` (String++.swift).

  The Swift function keeps the leading and the trailing run of separators as
  they are, splits what lies between them on the separator (dropping empty
  pieces) and, when there are at least two words, joins them with no
  separator: the first word with its first character lowercased, every later
  word with its first character uppercased. With fewer than two words it
  returns its input unchanged. `CamelCase` states this on values;
  `ToCamelCase` is the Swift code, with its backwards index loop, proved to
  compute it.
 */
module Camel {
  import opened Ascii
  import opened Sequences

  /** The string with its first character lowercased (`decapitalized`). */
  function Decapitalized(w: string): (r: string)
    ensures |r| == |w|
    ensures |w| > 0 ==> r[0] == Lower(w[0]) && r[1..] == w[1..]
  {
    if w == [] then [] else [Lower(w[0])] + w[1..]
  }

  /** The string with its first character uppercased (`encapitalized`). */
  function Encapitalized(w: string): (r: string)
    ensures |r| == |w|
    ensures |w| > 0 ==> r[0] == Upper(w[0]) && r[1..] == w[1..]
  {
    if w == [] then [] else [Upper(w[0])] + w[1..]
  }

  /** Changing the case of the first letter twice keeps only the second change. */
  lemma CapitalizationOverrides(w: string)
    ensures Decapitalized(Encapitalized(w)) == Decapitalized(w)
    ensures Encapitalized(Decapitalized(w)) == Encapitalized(w)
  {
    if w != [] {
      assert Encapitalized(w)[0] == Upper(w[0]);
      assert Decapitalized(w)[0] == Lower(w[0]);
    }
  }

  /** A word that starts with a letter of the same case is left alone. */
  lemma CapitalizationKeeps(w: string)
    ensures |w| > 0 && !IsUpper(w[0]) ==> Decapitalized(w) == w
    ensures |w| > 0 && !IsLower(w[0]) ==> Encapitalized(w) == w
  {
    if w != [] {
      assert w == [w[0]] + w[1..];
    }
  }

  /** `words[1...].map(\.encapitalized)`. */
  function MapEncapitalized(ws: seq<string>): (r: seq<string>)
    ensures |r| == |ws|
    ensures forall i :: 0 <= i < |ws| ==> r[i] == Encapitalized(ws[i])
  {
    if ws == [] then [] else [Encapitalized(ws[0])] + MapEncapitalized(ws[1..])
  }

  /** The separator test handed to `split(separator:)`. */
  function IsSeparator(sep: char): char -> bool
  {
    c => c == sep
  }

  /** `split(separator:)`: the separator-free pieces, empty ones omitted. */
  function Words(x: string, sep: char): (ws: seq<string>)
  {
    NonEmpty(SplitBy(x, IsSeparator(sep)))
  }

  /** The length of the leading separator run: `firstIndex(where: { $0 != separator })`. */
  function LeadLen(s: string, sep: char): (n: nat)
    ensures n <= |s|
    ensures forall k :: 0 <= k < n ==> s[k] == sep
    ensures n < |s| ==> s[n] != sep
  {
    if s != [] && s[0] == sep then 1 + LeadLen(s[1..], sep) else 0
  }

  /** The length of the trailing separator run. */
  function TrailLen(s: string, sep: char): (n: nat)
    ensures n <= |s|
    ensures forall k :: |s| - n <= k < |s| ==> s[k] == sep
    ensures n < |s| ==> s[|s| - 1 - n] != sep
  {
    if s != [] && s[|s| - 1] == sep then 1 + TrailLen(s[..|s| - 1], sep) else 0
  }

  /**
    The key range: what lies between the leading and the trailing separator
    run. It is empty exactly when the whole string is separators, and
    otherwise neither starts nor ends with one.
   */
  function Core(s: string, sep: char): (c: string)
    ensures LeadLen(s, sep) < |s| ==> LeadLen(s, sep) + TrailLen(s, sep) < |s|
    ensures c == [] <==> LeadLen(s, sep) == |s|
    ensures c != [] ==> c[0] != sep && c[|c| - 1] != sep
  {
    var lead := LeadLen(s, sep);
    if lead == |s| then []
    else
      var trail := TrailLen(s, sep);
      assert s[lead] != sep;
      s[lead..|s| - trail]
  }

  /** The specification of `toCamelCase`. */
  function CamelCase(s: string, sep: char): (r: string)
  {
    var lead := LeadLen(s, sep);
    if s == [] || lead == |s| then s
    else
      var trail := TrailLen(s, sep);
      var words := Words(Core(s, sep), sep);
      if |words| <= 1 then s
      else s[..lead] + Decapitalized(words[0]) + ConcatAll(MapEncapitalized(words[1..])) + s[|s| - trail..]
  }

  /** The Swift code: find the key range, split it, re-case and join the words. */
  method ToCamelCase(s: string, separator: char) returns (result: string)
    ensures result == CamelCase(s, separator)
  {
    var firstNonSeparator := LeadLen(s, separator);
    if |s| == 0 || firstNonSeparator == |s| {
      return s;
    }
    // `repeat { formIndex(before:) } while ...`: the first step back always happens.
    var lastNonSeparator := |s| - 1;
    while lastNonSeparator > firstNonSeparator && s[lastNonSeparator] == separator
      invariant firstNonSeparator <= lastNonSeparator < |s|
      invariant forall k :: lastNonSeparator < k < |s| ==> s[k] == separator
    {
      lastNonSeparator := lastNonSeparator - 1;
    }
    assert s[lastNonSeparator] != separator;
    KeyRange(s, separator, firstNonSeparator, lastNonSeparator);
    var keyRange := s[firstNonSeparator..lastNonSeparator + 1];
    var leading := s[..firstNonSeparator];
    var trailing := s[lastNonSeparator + 1..];
    var words := Words(keyRange, separator);
    if |words| <= 1 {
      return leading + keyRange + trailing;
    }
    result := leading + Decapitalized(words[0]) + ConcatAll(MapEncapitalized(words[1..])) + trailing;
  }

  /**
    What `ToCamelCase` finds once its loop stops at `last`, the last character
    that is not the separator: the key range, the two runs around it, and the
    result `CamelCase` prescribes.
   */
  lemma KeyRange(s: string, sep: char, first: nat, last: nat)
    requires first == LeadLen(s, sep) && first <= last < |s|
    requires s[last] != sep
    requires forall k :: last < k < |s| ==> s[k] == sep
    ensures last == |s| - 1 - TrailLen(s, sep)
    ensures s[first..last + 1] == Core(s, sep)
    ensures s[..first] + s[first..last + 1] + s[last + 1..] == s
    ensures var words := Words(s[first..last + 1], sep);
            CamelCase(s, sep) == if |words| <= 1 then s
                                 else s[..first] + Decapitalized(words[0])
                                      + ConcatAll(MapEncapitalized(words[1..])) + s[last + 1..]
  {
    TrailBefore(s, sep, last);
    Reassemble(s, first, last + 1);
  }

  /** Three adjacent slices make up the string. */
  lemma Reassemble(s: string, i: nat, j: nat)
    requires i <= j <= |s|
    ensures s[..i] + s[i..j] + s[j..] == s
  {
    assert s[..i] + s[i..j] == s[..j];
    assert s[..j] + s[j..] == s;
  }

  /** The trailing run starts right after the last character that is not the separator. */
  lemma TrailBefore(s: string, sep: char, last: nat)
    requires last < |s| && s[last] != sep
    requires forall k :: last < k < |s| ==> s[k] == sep
    ensures TrailLen(s, sep) == |s| - 1 - last
  {
    var n := TrailLen(s, sep);
    assert n <= |s| - 1 - last;
    assert s[|s| - 1 - n] != sep;
  }

  /**
    `split` drops empty pieces: a separator divides the words on its left from
    those on its right, so a run of separators divides like a single one.
   */
  lemma WordsAround(a: string, b: string, sep: char)
    ensures Words(a + [sep] + b, sep) == Words(a, sep) + Words(b, sep)
  {
    SplitAround(a, sep, b, IsSeparator(sep));
    NonEmptyAppend(SplitBy(a, IsSeparator(sep)), SplitBy(b, IsSeparator(sep)));
  }

  /** A string of separators only has no words. */
  lemma {:induction false} WordsOfSeparators(s: string, sep: char)
    requires forall k :: 0 <= k < |s| ==> s[k] == sep
    ensures Words(s, sep) == []
  {
    if s != [] {
      WordsOfSeparators(s[1..], sep);
      WordsAround([], s[1..], sep);
      assert [] + [sep] + s[1..] == s;
    }
  }

  /** Splitting a join of non-empty separator-free words gives the words back. */
  lemma WordsOfJoin(ws: seq<string>, sep: char)
    requires |ws| >= 1
    requires forall i :: 0 <= i < |ws| ==> ws[i] != [] && sep !in ws[i]
    ensures Words(JoinWith(ws, sep), sep) == ws
  {
    SplitJoin(ws, IsSeparator(sep), sep);
    NonEmptyKeeps(ws);
  }

  /** The words hold fewer characters than the text they come from, one separator for each gap. */
  lemma WordsLength(x: string, sep: char)
    ensures |ConcatAll(Words(x, sep))| + |Words(x, sep)| <= |x| + 1
  {
    var pieces := SplitBy(x, IsSeparator(sep));
    JoinSplit(x, IsSeparator(sep), sep);
    JoinLength(pieces, sep);
    NonEmptyConcat(pieces);
  }

  lemma {:induction false} MapEncapitalizedLength(ws: seq<string>)
    ensures |ConcatAll(MapEncapitalized(ws))| == |ConcatAll(ws)|
  {
    if ws != [] {
      MapEncapitalizedLength(ws[1..]);
    }
  }

  /**
    `toCamelCase` returns its input exactly when the key range holds fewer
    than two words: the empty string, a string of separators only, and a
    single word (whatever its case) come back unchanged, and any string with
    two or more words comes back shorter.
   */
  lemma CamelCaseIdentity(s: string, sep: char)
    ensures CamelCase(s, sep) == s <==> |Words(Core(s, sep), sep)| < 2
    ensures |Words(Core(s, sep), sep)| >= 2 ==> |CamelCase(s, sep)| < |s|
  {
    var core := Core(s, sep);
    var words := Words(core, sep);
    if LeadLen(s, sep) == |s| {
      WordsOfSeparators(core, sep);
    } else if |words| >= 2 {
      WordsLength(core, sep);
      MapEncapitalizedLength(words[1..]);
      assert ConcatAll(words) == words[0] + ConcatAll(words[1..]);
    }
  }

  /** The leading and trailing separator runs come through verbatim. */
  lemma CamelCaseKeepsRuns(s: string, sep: char)
    ensures LeadLen(s, sep) == |s| ==> CamelCase(s, sep) == s
    ensures LeadLen(s, sep) < |s| ==>
              var r, lead, trail := CamelCase(s, sep), LeadLen(s, sep), TrailLen(s, sep);
              && lead + trail <= |r|
              && r[..lead] == s[..lead]
              && r[|r| - trail..] == s[|s| - trail..]
  {
    if LeadLen(s, sep) < |s| {
      if |Words(Core(s, sep), sep)| >= 2 {
        RunsAroundWords(s, sep);
      } else {
        CamelCaseIdentity(s, sep);
      }
    }
  }

  lemma RunsAroundWords(s: string, sep: char)
    requires LeadLen(s, sep) < |s|
    requires |Words(Core(s, sep), sep)| >= 2
    ensures var r, lead, trail := CamelCase(s, sep), LeadLen(s, sep), TrailLen(s, sep);
            && lead + trail <= |r|
            && r[..lead] == s[..lead]
            && r[|r| - trail..] == s[|s| - trail..]
  {
    var lead, trail := LeadLen(s, sep), TrailLen(s, sep);
    var words := Words(Core(s, sep), sep);
    CamelCaseSplits(s, sep);
    var a, d, c, b := s[..lead], Decapitalized(words[0]), ConcatAll(MapEncapitalized(words[1..])), s[|s| - trail..];
    Ends(a, d, c, b);
  }

  /** The two-or-more-words case of `CamelCase`, spelled out. */
  lemma CamelCaseSplits(s: string, sep: char)
    requires LeadLen(s, sep) < |s|
    requires |Words(Core(s, sep), sep)| >= 2
    ensures LeadLen(s, sep) + TrailLen(s, sep) < |s|
    ensures var words := Words(Core(s, sep), sep);
            CamelCase(s, sep) == s[..LeadLen(s, sep)] + Decapitalized(words[0])
                                 + ConcatAll(MapEncapitalized(words[1..])) + s[|s| - TrailLen(s, sep)..]
  {
  }

  lemma Ends(a: string, d: string, c: string, b: string)
    ensures (a + d + c + b)[..|a|] == a
    ensures (a + d + c + b)[|a + d + c + b| - |b|..] == b
  {
  }

  lemma LeadLenOf(lead: string, rest: string, sep: char)
    requires forall k :: 0 <= k < |lead| ==> lead[k] == sep
    requires rest != [] && rest[0] != sep
    ensures LeadLen(lead + rest, sep) == |lead|
  {
    var s := lead + rest;
    assert forall k :: 0 <= k < |lead| ==> s[k] == sep;
    assert s[|lead|] != sep;
  }

  lemma TrailLenOf(rest: string, trail: string, sep: char)
    requires forall k :: 0 <= k < |trail| ==> trail[k] == sep
    requires rest != [] && rest[|rest| - 1] != sep
    ensures TrailLen(rest + trail, sep) == |trail|
  {
    var s := rest + trail;
    assert forall k :: |s| - |trail| <= k < |s| ==> s[k] == sep by {
      forall k | |s| - |trail| <= k < |s| ensures s[k] == sep {
        assert s[k] == trail[k - |rest|];
      }
    }
    assert s[|s| - 1 - |trail|] != sep;
  }

  lemma {:induction false} JoinWithEnds(ws: seq<string>, sep: char)
    requires |ws| >= 1
    requires forall i :: 0 <= i < |ws| ==> ws[i] != []
    ensures var j := JoinWith(ws, sep);
            j != [] && j[0] == ws[0][0] && j[|j| - 1] == ws[|ws| - 1][|ws[|ws| - 1]| - 1]
  {
    if |ws| > 1 {
      JoinWithEnds(ws[1..], sep);
    }
  }

  /**
    On words joined by single separators, between any leading and trailing
    separator runs: one word comes back unchanged; two or more are joined with
    no separator, the first decapitalized and the later ones encapitalized.
   */
  lemma CamelCaseOfWords(x: string, lead: string, ws: seq<string>, trail: string, sep: char)
    requires x == lead + JoinWith(ws, sep) + trail
    requires forall k :: 0 <= k < |lead| ==> lead[k] == sep
    requires forall k :: 0 <= k < |trail| ==> trail[k] == sep
    requires |ws| >= 1
    requires forall i :: 0 <= i < |ws| ==> ws[i] != [] && sep !in ws[i]
    ensures var r := CamelCase(x, sep);
            r == if |ws| == 1 then lead + ws[0] + trail
                 else lead + Decapitalized(ws[0]) + ConcatAll(MapEncapitalized(ws[1..])) + trail
  {
    var j := JoinWith(ws, sep);
    var s := lead + j + trail;
    JoinWithEnds(ws, sep);
    assert j[0] != sep by { assert j[0] in ws[0]; }
    assert j[|j| - 1] != sep by { assert j[|j| - 1] in ws[|ws| - 1]; }
    LeadLenOf(lead, j + trail, sep);
    assert s == lead + (j + trail);
    TrailLenOf(lead + j, trail, sep);
    assert Core(s, sep) == j;
    WordsOfJoin(ws, sep);
  }

  lemma JoinUserId()
    ensures "" + JoinWith(["user", "id"], '_') + "" == "user_id"
  {
    assert ["user", "id"][1..] == ["id"];
  }

  lemma RecaseUserId()
    ensures "" + Decapitalized("user") + ConcatAll(MapEncapitalized(["id"])) + "" == "userId"
  {
    assert Encapitalized("id") == "Id";
    assert MapEncapitalized(["id"]) == ["Id"];
    assert ConcatAll(["Id"]) == "Id";
  }

  /** `toCamelCase("user_id") == "userId"`. */
  lemma CamelCaseUserId(s: string)
    requires s == "user_id"
    ensures CamelCase(s, '_') == "userId"
  {
    var ws := ["user", "id"];
    JoinUserId();
    RecaseUserId();
    assert ws[0] == "user" && ws[1..] == ["id"];
    CamelCaseOfWords(s, "", ws, "", '_');
  }

  /** A single word is returned without any change of case. */
  lemma CamelCaseSingleWord()
    ensures CamelCase("Foo", '_') == "Foo"
  {
    assert "" + JoinWith(["Foo"], '_') + "" == "Foo";
    CamelCaseOfWords("Foo", "", ["Foo"], "", '_');
  }
}
