/** `recall_mnemonic`: which rows a query selects. The query is a plain
    substring; without case sensitivity both sides are first mapped by
    `fold`, which stands for the regular-expression engine's case folding. */
module Recall {
  import opened Seqs
  import opened Records

  datatype Column = KoreanWord | Meaning

  function CellOf(r: Record, col: Column): Cell {
    match col
    case KoreanWord => r.koreanWord
    case Meaning => r.meaning
  }

  /** `str.contains(query, case=caseSensitive, na=False)` on one cell: a
      missing cell never matches; a present one matches exactly when the
      query (both sides folded, without case sensitivity) occurs in it at
      some offset. */
  predicate CellContains(c: Cell, query: string, caseSensitive: bool, fold: string -> string): (m: bool)
    ensures c.None? ==> !m
    ensures c.Some? && caseSensitive ==> (m <==> exists k: nat :: OccursAt(c.value, query, k))
    ensures c.Some? && !caseSensitive ==> (m <==> exists k: nat :: OccursAt(fold(c.value), fold(query), k))
  {
    if c.None? then false
    else
      ContainsAt(c.value, query);
      ContainsAt(fold(c.value), fold(query));
      if caseSensitive then Contains(c.value, query) else Contains(fold(c.value), fold(query))
  }

  predicate RowMatches(r: Record, col: Column, query: string, caseSensitive: bool, fold: string -> string) {
    CellContains(CellOf(r, col), query, caseSensitive, fold)
  }

  /** The rows of one column's boolean mask, in table order. */
  function ColumnMatches(rows: seq<Record>, col: Column, query: string, caseSensitive: bool,
                         fold: string -> string): (r: seq<Record>)
    ensures forall x :: x in r ==> x in rows && RowMatches(x, col, query, caseSensitive, fold)
    ensures forall i :: 0 <= i < |rows| && RowMatches(rows[i], col, query, caseSensitive, fold) ==> rows[i] in r
    ensures forall x :: RowMatches(x, col, query, caseSensitive, fold) ==> multiset(r)[x] == multiset(rows)[x]
    ensures IsSubseq(r, rows)
  {
    if rows == [] then []
    else
      var p, x := rows[..|rows| - 1], rows[|rows| - 1];
      assert rows == p + [x];
      assert multiset(rows) == multiset(p) + multiset{x};
      assert forall i :: 0 <= i < |p| ==> p[i] == rows[i];
      var m := ColumnMatches(p, col, query, caseSensitive, fold);
      if RowMatches(x, col, query, caseSensitive, fold) then
        SubseqSnoc(m, p, x);
        m + [x]
      else
        SubseqExtend(m, p, x);
        m
  }

  predicate EitherMatches(r: Record, query: string, caseSensitive: bool, fold: string -> string) {
    RowMatches(r, KoreanWord, query, caseSensitive, fold) || RowMatches(r, Meaning, query, caseSensitive, fold)
  }

  /** The outcome of a recall: the "no mnemonics found" report, or the rows
      that are shown. */
  datatype RecallOutcome = NoMatch | Found(matches: seq<Record>)

  /** The selection of `recall_mnemonic`: the word matches followed by the
      meaning matches, duplicates dropped. Its rows are exactly the rows whose
      word or meaning contains the query; there are none exactly when the
      outcome is `NoMatch`. */
  function RecallMnemonic(rows: seq<Record>, query: string, caseSensitive: bool,
                          fold: string -> string): (out: RecallOutcome)
    ensures out.NoMatch? <==> forall i :: 0 <= i < |rows| ==> !EitherMatches(rows[i], query, caseSensitive, fold)
    ensures out.Found? ==> out.matches != []
    ensures out.Found? ==> forall x :: x in out.matches ==> x in rows && EitherMatches(x, query, caseSensitive, fold)
    ensures out.Found? ==> forall i :: 0 <= i < |rows| && EitherMatches(rows[i], query, caseSensitive, fold) ==>
                             rows[i] in out.matches
  {
    var km := ColumnMatches(rows, KoreanWord, query, caseSensitive, fold);
    var em := ColumnMatches(rows, Meaning, query, caseSensitive, fold);
    if km == [] && em == [] then NoMatch
    else
      assert (km + em)[0] in km + em;
      Found(Dedup(km + em))
  }

  /** A fold that maps a string character by character, as the
      case-insensitive match of the regular-expression engine does. */
  ghost predicate FoldsPerCharacter(fold: string -> string) {
    forall a, b :: fold(a + b) == fold(a) + fold(b)
  }

  /** Folding a string keeps an occurrence of the query, folded, at the
      offset where the folded prefix ends. */
  lemma FoldKeepsOccurrence(s: string, q: string, k: nat, fold: string -> string)
    requires FoldsPerCharacter(fold) && OccursAt(s, q, k)
    ensures OccursAt(fold(s), fold(q), |fold(s[..k])|)
  {
    var before, after := s[..k], s[k + |q|..];
    assert s == before + q + after;
    assert fold(s) == fold(before) + fold(q) + fold(after) by {
      assert fold(before + q + after) == fold(before + q) + fold(after);
    }
  }

  /** Any substring of a row's word or meaning recalls that row, in both
      modes, provided the case folding works character by character. */
  lemma RecallFindsSubstring(rows: seq<Record>, query: string, caseSensitive: bool,
                             fold: string -> string, i: nat, k: nat)
    requires FoldsPerCharacter(fold) && i < |rows|
    requires || (rows[i].koreanWord.Some? && OccursAt(rows[i].koreanWord.value, query, k))
             || (rows[i].meaning.Some? && OccursAt(rows[i].meaning.value, query, k))
    ensures RecallMnemonic(rows, query, caseSensitive, fold).Found?
    ensures rows[i] in RecallMnemonic(rows, query, caseSensitive, fold).matches
  {
    var col := if rows[i].koreanWord.Some? && OccursAt(rows[i].koreanWord.value, query, k) then KoreanWord else Meaning;
    var c := CellOf(rows[i], col).value;
    FoldKeepsOccurrence(c, query, k, fold);
    assert RowMatches(rows[i], col, query, caseSensitive, fold);
  }

  /** No row is shown twice. */
  lemma RecallNoRepeats(rows: seq<Record>, query: string, caseSensitive: bool, fold: string -> string)
    requires RecallMnemonic(rows, query, caseSensitive, fold).Found?
    ensures NoRepeats(RecallMnemonic(rows, query, caseSensitive, fold).matches)
  {
    DedupNoRepeats(ColumnMatches(rows, KoreanWord, query, caseSensitive, fold) +
                   ColumnMatches(rows, Meaning, query, caseSensitive, fold));
  }

  /** The word matches come first, in table order; after them come only rows
      whose meaning matches and whose word does not. */
  lemma RecallWordMatchesFirst(rows: seq<Record>, query: string, caseSensitive: bool, fold: string -> string)
    requires RecallMnemonic(rows, query, caseSensitive, fold).Found?
    ensures var out := RecallMnemonic(rows, query, caseSensitive, fold).matches;
            var words := Dedup(ColumnMatches(rows, KoreanWord, query, caseSensitive, fold));
            && words <= out
            && IsSubseq(words, ColumnMatches(rows, KoreanWord, query, caseSensitive, fold))
            && IsSubseq(ColumnMatches(rows, KoreanWord, query, caseSensitive, fold), rows)
            && IsSubseq(out[|words|..], ColumnMatches(rows, Meaning, query, caseSensitive, fold))
            && (forall y :: y in out[|words|..] ==>
                  RowMatches(y, Meaning, query, caseSensitive, fold) &&
                  !RowMatches(y, KoreanWord, query, caseSensitive, fold))
  {
    var km := ColumnMatches(rows, KoreanWord, query, caseSensitive, fold);
    var em := ColumnMatches(rows, Meaning, query, caseSensitive, fold);
    DedupAppend(km, em);
    var words, rest := Dedup(km), Dedup(Without(em, km));
    assert (words + rest)[|words|..] == rest;
    SubseqTrans(rest, Without(em, km), em);
    forall y | y in rest
      ensures RowMatches(y, Meaning, query, caseSensitive, fold)
      ensures !RowMatches(y, KoreanWord, query, caseSensitive, fold)
    {
      assert y in em && y !in km;
      var i :| 0 <= i < |rows| && rows[i] == y;
    }
  }
}
