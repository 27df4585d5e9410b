/**
  `typeName(_:)` of `StringProtocol` (String++.swift), applied to the text
  that `String(reflecting:)` gives for a type, e.g. "Swift.Array<MyApp.Pet>".

  The text is cut at `< , space > : [ ] ?`; every piece is cut at its dots and,
  when it has more than one dotted segment, loses the first one (the module
  name); every segment is cut at its non-alphanumeric characters; all the bits
  are joined. The result is an identifier made of alphanumerics only in which
  generic arguments survive, so `Array<Foo>` and `Array<Bar>` stay apart.
 */
module TypeNames {
  import opened Ascii
  import opened Sequences

  /** The characters the reflected text is cut at. */
  predicate IsTypeDelimiter(c: char)
  {
    c == '<' || c == ',' || c == ' ' || c == '>' || c == ':' || c == '[' || c == ']' || c == '?'
  }

  predicate IsDot(c: char) { c == '.' }

  predicate NotDot(c: char) { c != '.' }

  /** Every character of `s` is an ASCII letter or digit. */
  predicate AllAlnum(s: string)
  {
    forall k :: 0 <= k < |s| ==> IsAlnum(s[k])
  }

  /** The dotted segments of one piece, without the first when there is more than one. */
  function DropModule(piece: string): (r: seq<string>)
  {
    var parts := SplitBy(piece, IsDot);
    if |parts| > 1 then parts[1..] else parts
  }

  /** `flatMap` of `DropModule` over the pieces. */
  function FlatMapDropModule(pieces: seq<string>): seq<string>
  {
    if pieces == [] then [] else DropModule(pieces[0]) + FlatMapDropModule(pieces[1..])
  }

  /** `flatMap { $0.components(separatedBy: .alphanumerics.inverted) }` over the segments. */
  function FlatMapAlnumRuns(segments: seq<string>): seq<string>
  {
    if segments == [] then [] else SplitBy(segments[0], NotAlnum) + FlatMapAlnumRuns(segments[1..])
  }

  /** Cutting every segment at its non-alphanumerics and joining the bits keeps exactly the alphanumerics. */
  lemma {:induction false} AlnumRunsJoined(segments: seq<string>)
    ensures ConcatAll(FlatMapAlnumRuns(segments)) == Filter(ConcatAll(segments), IsAlnum)
  {
    if segments != [] {
      AlnumRunsJoined(segments[1..]);
      ConcatAllAppend(SplitBy(segments[0], NotAlnum), FlatMapAlnumRuns(segments[1..]));
      ConcatSplit(segments[0], NotAlnum, IsAlnum);
      FilterAppend(segments[0], ConcatAll(segments[1..]), IsAlnum);
    }
  }

  /**
    `typeName` of the reflected text: alphanumerics only, namely those of the
    module-stripped segments, in their original order.
   */
  function TypeName(reflected: string): (r: string)
    ensures r == Filter(ConcatAll(FlatMapDropModule(SplitBy(reflected, IsTypeDelimiter))), IsAlnum)
    ensures AllAlnum(r)
  {
    var segments := FlatMapDropModule(SplitBy(reflected, IsTypeDelimiter));
    AlnumRunsJoined(segments);
    ConcatAll(FlatMapAlnumRuns(segments))
  }

  /** A piece without a dot is kept whole. */
  lemma DropModuleNoDot(piece: string)
    requires '.' !in piece
    ensures DropModule(piece) == [piece]
  {
    SplitFree(piece, IsDot);
  }

  /** A piece with a dot loses everything up to and including its first dot; the later dots go too. */
  lemma DropModuleFirstDot(module_: string, rest: string)
    requires '.' !in module_
    ensures DropModule(module_ + ['.'] + rest) == SplitBy(rest, IsDot)
    ensures ConcatAll(DropModule(module_ + ['.'] + rest)) == Filter(rest, NotDot)
  {
    SplitAround(module_, '.', rest, IsDot);
    SplitFree(module_, IsDot);
    ConcatSplit(rest, IsDot, NotDot);
  }

  lemma {:induction false} FilterKeepsAll(s: string, keep: char -> bool)
    requires forall k :: 0 <= k < |s| ==> keep(s[k])
    ensures Filter(s, keep) == s
  {
    if s != [] {
      FilterKeepsAll(s[1..], keep);
      assert s == [s[0]] + s[1..];
    }
  }

  /** A dotted name `M.T` of alphanumeric parts holds no delimiter. */
  lemma DottedIsOnePiece(m: string, t: string)
    requires AllAlnum(m) && AllAlnum(t)
    ensures Free(m + ['.'] + t, IsTypeDelimiter)
  {
  }

  lemma RegroupGeneric(outer: string, n: string, u: string)
    ensures outer + ['<'] + n + ['.'] + u + ['>'] == outer + ['<'] + (n + ['.'] + u + ['>'] + [])
  {
  }

  /** `M.T<N.U>` is cut into `M.T`, `N.U` and the empty piece after `>`. */
  lemma GenericPieces(m: string, t: string, n: string, u: string)
    requires AllAlnum(m) && AllAlnum(t) && AllAlnum(n) && AllAlnum(u)
    ensures SplitBy(m + ['.'] + t + ['<'] + n + ['.'] + u + ['>'], IsTypeDelimiter)
            == [m + ['.'] + t, n + ['.'] + u, []]
  {
    var outer, inner := m + ['.'] + t, n + ['.'] + u;
    RegroupGeneric(outer, n, u);
    DottedIsOnePiece(m, t);
    DottedIsOnePiece(n, u);
    SplitAround(outer, '<', inner + ['>'] + [], IsTypeDelimiter);
    SplitAround(inner, '>', [], IsTypeDelimiter);
    SplitFree(outer, IsTypeDelimiter);
    SplitFree(inner, IsTypeDelimiter);
  }

  /** A dotted name `M.T` of alphanumeric parts loses its module `M`. */
  lemma DropModuleOfDotted(m: string, t: string)
    requires AllAlnum(m) && AllAlnum(t)
    ensures DropModule(m + ['.'] + t) == [t]
  {
    assert '.' !in m;
    assert Free(t, IsDot);
    DropModuleFirstDot(m, t);
    SplitFree(t, IsDot);
  }

  lemma FlatMapDropModuleOfThree(p: string, q: string, r: string)
    ensures FlatMapDropModule([p, q, r]) == DropModule(p) + DropModule(q) + DropModule(r)
  {
    assert [p, q, r][1..] == [q, r];
    assert [q, r][1..] == [r];
    assert [r][1..] == [];
    assert FlatMapDropModule([r]) == DropModule(r) + FlatMapDropModule([]);
    assert FlatMapDropModule([q, r]) == DropModule(q) + FlatMapDropModule([r]);
  }

  /** The pieces `M.T`, `N.U` and the empty one lose their modules: `T`, `U` and the empty segment remain. */
  lemma GenericSegments(m: string, t: string, n: string, u: string)
    requires AllAlnum(m) && AllAlnum(t) && AllAlnum(n) && AllAlnum(u)
    ensures FlatMapDropModule([m + ['.'] + t, n + ['.'] + u, []]) == [t, u, []]
  {
    FlatMapDropModuleOfThree(m + ['.'] + t, n + ['.'] + u, []);
    DropModuleOfDotted(m, t);
    DropModuleOfDotted(n, u);
    DropModuleNoDot([]);
  }

  /**
    A generic type `M.T<N.U>` (module and type names alphanumeric) is named
    `TU`: the modules are dropped and the argument is kept.
   */
  lemma TypeNameOfGeneric(m: string, t: string, n: string, u: string)
    requires AllAlnum(m) && AllAlnum(t) && AllAlnum(n) && AllAlnum(u)
    ensures TypeName(m + ['.'] + t + ['<'] + n + ['.'] + u + ['>']) == t + u
  {
    GenericPieces(m, t, n, u);
    GenericSegments(m, t, n, u);
    assert ConcatAll([t, u, []]) == t + u by {
      assert [t, u, []][1..] == [u, []];
      assert [u, []][1..] == [[]];
      assert ConcatAll([[]]) == [];
    }
    FilterKeepsAll(t + u, IsAlnum);
  }

  /** Two instances of one generic type with different arguments get different names. */
  lemma TypeNameKeepsArguments(m: string, t: string, n: string, u: string, n': string, u': string)
    requires AllAlnum(m) && AllAlnum(t) && AllAlnum(n) && AllAlnum(u) && AllAlnum(n') && AllAlnum(u')
    requires u != u'
    ensures TypeName(m + ['.'] + t + ['<'] + n + ['.'] + u + ['>'])
            != TypeName(m + ['.'] + t + ['<'] + n' + ['.'] + u' + ['>'])
  {
    TypeNameOfGeneric(m, t, n, u);
    TypeNameOfGeneric(m, t, n', u');
    assert (t + u)[|t|..] == u && (t + u')[|t|..] == u';
  }
}
