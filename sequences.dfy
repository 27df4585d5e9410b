/**
  The string-splitting and joining primitives the Swift code borrows from the
  standard library and Foundation, and one of the model's own:

  - `SplitBy(s, isSep)` is Foundation's `components(separatedBy:)`: every
    maximal run between separators, empty runs included;
  - `NonEmpty(SplitBy(s, isSep))` is the standard library's
    `split(separator:)`, which omits empty subsequences;
  - `ConcatAll` is `joined()`;
  - `JoinWith` joins pieces with one separator character between them. The
    Swift code never calls such a join; it is the inverse of splitting, used
    here to state round trips.
 */
module Sequences {

  function ConcatAll(ws: seq<string>): (r: string)
    ensures ws == [] ==> r == []
  {
    if ws == [] then [] else ws[0] + ConcatAll(ws[1..])
  }

  /** The pieces with `sep` between each two: the inverse of splitting at `sep`. */
  function JoinWith(ws: seq<string>, sep: char): (r: string)
  {
    if ws == [] then []
    else if |ws| == 1 then ws[0]
    else ws[0] + [sep] + JoinWith(ws[1..], sep)
  }

  /** The characters of `s` that satisfy `keep`, in their original order. */
  function Filter(s: string, keep: char -> bool): (r: string)
    ensures |r| <= |s|
    ensures forall k :: 0 <= k < |r| ==> keep(r[k])
  {
    if s == [] then []
    else (if keep(s[0]) then [s[0]] else []) + Filter(s[1..], keep)
  }

  /** True when no character of `s` satisfies `isSep`. */
  predicate Free(s: string, isSep: char -> bool)
  {
    forall k :: 0 <= k < |s| ==> !isSep(s[k])
  }

  /** The pieces of `s` between the characters that satisfy `isSep`, empty pieces included. */
  function SplitBy(s: string, isSep: char -> bool): (r: seq<string>)
    ensures |r| >= 1
    ensures forall i :: 0 <= i < |r| ==> Free(r[i], isSep)
  {
    if s == [] then [[]]
    else
      var rest := SplitBy(s[1..], isSep);
      if isSep(s[0]) then [[]] + rest
      else [[s[0]] + rest[0]] + rest[1..]
  }

  /** `ws` without its empty strings. */
  function NonEmpty(ws: seq<string>): (r: seq<string>)
    ensures |r| <= |ws|
    ensures forall i :: 0 <= i < |r| ==> r[i] != [] && r[i] in ws
  {
    if ws == [] then []
    else if ws[0] == [] then NonEmpty(ws[1..])
    else [ws[0]] + NonEmpty(ws[1..])
  }

  lemma {:induction false} ConcatAllAppend(a: seq<string>, b: seq<string>)
    ensures ConcatAll(a + b) == ConcatAll(a) + ConcatAll(b)
  {
    if a == [] {
      assert a + b == b;
    } else {
      assert (a + b)[1..] == a[1..] + b;
      ConcatAllAppend(a[1..], b);
    }
  }

  lemma {:induction false} FilterAppend(a: string, b: string, keep: char -> bool)
    ensures Filter(a + b, keep) == Filter(a, keep) + Filter(b, keep)
  {
    if a == [] {
      assert a + b == b;
    } else {
      assert (a + b)[1..] == a[1..] + b;
      FilterAppend(a[1..], b, keep);
    }
  }

  /** A string with no separator is one piece. */
  lemma {:induction false} SplitFree(s: string, isSep: char -> bool)
    requires Free(s, isSep)
    ensures SplitBy(s, isSep) == [s]
  {
    if s != [] {
      assert Free(s[1..], isSep) by {
        forall k | 0 <= k < |s[1..]| ensures !isSep(s[1..][k]) {
          assert s[1..][k] == s[k + 1];
        }
      }
      SplitFree(s[1..], isSep);
      assert s == [s[0]] + s[1..];
    }
  }

  /** Splitting distributes over a separator character. */
  lemma {:induction false} SplitAround(a: string, c: char, b: string, isSep: char -> bool)
    requires isSep(c)
    ensures SplitBy(a + [c] + b, isSep) == SplitBy(a, isSep) + SplitBy(b, isSep)
  {
    if a == [] {
      assert a + [c] + b == [c] + b;
      assert ([c] + b)[1..] == b;
    } else {
      assert (a + [c] + b)[0] == a[0];
      assert (a + [c] + b)[1..] == a[1..] + [c] + b;
      SplitAround(a[1..], c, b, isSep);
    }
  }

  /** Joining the pieces with the (only) separator character gives back the string. */
  lemma {:induction false} JoinSplit(s: string, isSep: char -> bool, sep: char)
    requires forall c :: isSep(c) <==> c == sep
    ensures JoinWith(SplitBy(s, isSep), sep) == s
  {
    if s != [] {
      var rest := SplitBy(s[1..], isSep);
      JoinSplit(s[1..], isSep, sep);
      if isSep(s[0]) {
        assert ([[]] + rest)[1..] == rest;
        assert s == [s[0]] + s[1..];
      } else if |rest| == 1 {
        assert s == [s[0]] + s[1..];
      } else {
        assert ([[s[0]] + rest[0]] + rest[1..])[1..] == rest[1..];
        assert JoinWith(rest, sep) == rest[0] + [sep] + JoinWith(rest[1..], sep);
        assert s == [s[0]] + s[1..];
      }
    }
  }

  /** Splitting a join of separator-free pieces gives the pieces back. */
  lemma {:induction false} SplitJoin(ws: seq<string>, isSep: char -> bool, sep: char)
    requires isSep(sep)
    requires |ws| >= 1
    requires forall i :: 0 <= i < |ws| ==> Free(ws[i], isSep)
    ensures SplitBy(JoinWith(ws, sep), isSep) == ws
  {
    if |ws| == 1 {
      SplitFree(ws[0], isSep);
    } else {
      var rest := JoinWith(ws[1..], sep);
      assert JoinWith(ws, sep) == ws[0] + [sep] + rest;
      SplitJoin(ws[1..], isSep, sep);
      SplitBeforeSeparator(ws[0], sep, rest, isSep);
      assert ws == [ws[0]] + ws[1..];
    }
  }

  /** A separator-free piece followed by a separator splits off as one piece. */
  lemma SplitBeforeSeparator(w: string, sep: char, rest: string, isSep: char -> bool)
    requires isSep(sep) && Free(w, isSep)
    ensures SplitBy(w + [sep] + rest, isSep) == [w] + SplitBy(rest, isSep)
  {
    SplitFree(w, isSep);
    SplitAround(w, sep, rest, isSep);
  }

  /** Concatenating the pieces removes exactly the separator characters. */
  lemma {:induction false} ConcatSplit(s: string, isSep: char -> bool, keep: char -> bool)
    requires forall c :: keep(c) <==> !isSep(c)
    ensures ConcatAll(SplitBy(s, isSep)) == Filter(s, keep)
  {
    if s != [] {
      var rest := SplitBy(s[1..], isSep);
      ConcatSplit(s[1..], isSep, keep);
      if isSep(s[0]) {
        assert ([[]] + rest)[1..] == rest;
      } else {
        assert ([[s[0]] + rest[0]] + rest[1..])[1..] == rest[1..];
        assert ConcatAll(rest) == rest[0] + ConcatAll(rest[1..]);
      }
    }
  }

  lemma {:induction false} NonEmptyConcat(ws: seq<string>)
    ensures ConcatAll(NonEmpty(ws)) == ConcatAll(ws)
  {
    if ws != [] {
      NonEmptyConcat(ws[1..]);
    }
  }

  lemma {:induction false} NonEmptyKeeps(ws: seq<string>)
    requires forall i :: 0 <= i < |ws| ==> ws[i] != []
    ensures NonEmpty(ws) == ws
  {
    if ws != [] {
      NonEmptyKeeps(ws[1..]);
      assert ws == [ws[0]] + ws[1..];
    }
  }

  /** `joined()` is one character shorter per gap than the join with a separator. */
  lemma {:induction false} JoinLength(ws: seq<string>, sep: char)
    requires |ws| >= 1
    ensures |JoinWith(ws, sep)| == |ConcatAll(ws)| + |ws| - 1
  {
    if |ws| > 1 {
      JoinLength(ws[1..], sep);
    }
  }

  lemma {:induction false} NonEmptyAppend(a: seq<string>, b: seq<string>)
    ensures NonEmpty(a + b) == NonEmpty(a) + NonEmpty(b)
  {
    if a == [] {
      assert a + b == b;
    } else {
      assert (a + b)[1..] == a[1..] + b;
      NonEmptyAppend(a[1..], b);
    }
  }
}
