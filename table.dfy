/** Deduplicating insertion into the table, as functions on the sequence of
    rows: `_is_duplicate`, the effect of one `add_mnemonic` on the rows, and
    the effect of the loop in `bulk_add_from_json`. */
module Table {
  import opened Options
  import opened Seqs
  import opened Records

  /** Element-wise `==` of a pandas column with a value: a missing cell is
      equal to nothing, and neither is a missing value. */
  predicate CellEq(c: Cell, v: Cell) {
    c.Some? && v.Some? && c.value == v.value
  }

  /** Row `r` is selected by the mask of `_is_duplicate`. */
  predicate KeyMatches(r: Record, word: Cell, meaning: Cell) {
    CellEq(r.koreanWord, word) && CellEq(r.meaning, meaning)
  }

  /** The number of rows selected by the mask of `_is_duplicate`. */
  function CountKey(rows: seq<Record>, word: Cell, meaning: Cell): (n: nat)
    ensures n <= |rows|
    ensures n > 0 <==> exists i :: 0 <= i < |rows| && KeyMatches(rows[i], word, meaning)
  {
    if rows == [] then 0
    else
      var p, r := rows[..|rows| - 1], rows[|rows| - 1];
      assert forall i :: 0 <= i < |p| ==> p[i] == rows[i];
      CountKey(p, word, meaning) + (if KeyMatches(r, word, meaning) then 1 else 0)
  }

  /** `_is_duplicate`: some row already holds this word and this meaning.
      A missing word or meaning is never a duplicate, since NaN equals
      nothing. */
  predicate IsDuplicate(rows: seq<Record>, word: Cell, meaning: Cell): (dup: bool)
    ensures dup <==> exists i :: 0 <= i < |rows| && KeyMatches(rows[i], word, meaning)
    ensures word.None? || meaning.None? ==> !dup
  {
    CountKey(rows, word, meaning) > 0
  }

  /** The rows after `add_mnemonic` of row `r`: a duplicate is skipped and
      leaves the rows unchanged; otherwise exactly `r` is appended at the
      end. The table's invariant is kept. */
  function Insert(rows: seq<Record>, r: Record): (t: seq<Record>)
    ensures |t| == if IsDuplicate(rows, r.koreanWord, r.meaning) then |rows| else |rows| + 1
    ensures t[..|rows|] == rows
    ensures |t| > |rows| ==> t[|rows|] == r
    ensures NoDuplicateKeys(rows) ==> NoDuplicateKeys(t)
  {
    if IsDuplicate(rows, r.koreanWord, r.meaning) then rows
    else
      AppendKeepsNoDuplicateKeys(rows, r);
      rows + [r]
  }

  /** The table's invariant: no two rows share both word and meaning. */
  predicate NoDuplicateKeys(rows: seq<Record>) {
    forall i, j :: 0 <= i < j < |rows| ==> !KeyMatches(rows[j], rows[i].koreanWord, rows[i].meaning)
  }

  /** The mask of `_is_duplicate` is symmetric in the two rows. */
  lemma KeyMatchesSymmetric(a: Record, b: Record)
    ensures KeyMatches(a, b.koreanWord, b.meaning) <==> KeyMatches(b, a.koreanWord, a.meaning)
  {
  }

  /** The invariant does not depend on the order of the rows: reordering
      them, as the sort on loading does, keeps it. */
  lemma NoDuplicateKeysPermutation(s: seq<Record>, t: seq<Record>)
    requires multiset(s) == multiset(t)
    ensures NoDuplicateKeys(s) ==> NoDuplicateKeys(t)
  {
    if NoDuplicateKeys(s) {
      forall i, j | 0 <= i < j < |t|
        ensures !KeyMatches(t[j], t[i].koreanWord, t[i].meaning)
      {
        if t[i] == t[j] {
          TwoPositionsCount(t, i, j);
          var a, b := CountTwoPositions(s, t[i]);
          assert !KeyMatches(s[b], s[a].koreanWord, s[a].meaning);
        } else {
          assert t[i] in multiset(s) && t[j] in multiset(s);
          var a :| 0 <= a < |s| && s[a] == t[i];
          var b :| 0 <= b < |s| && s[b] == t[j];
          if a < b {
            assert !KeyMatches(s[b], s[a].koreanWord, s[a].meaning);
          } else {
            assert !KeyMatches(s[a], s[b].koreanWord, s[b].meaning);
            KeyMatchesSymmetric(t[i], t[j]);
          }
        }
      }
    }
  }

  /** The rows after the loop of `bulk_add_from_json` has added `es`, in
      order, each with the shared `timestamp`. */
  function InsertAll(rows: seq<Record>, timestamp: int, es: seq<Entry>): (t: seq<Record>)
    ensures |rows| <= |t| <= |rows| + |es|
    ensures NoDuplicateKeys(rows) ==> NoDuplicateKeys(t)
    decreases |es|
  {
    if es == [] then rows
    else Insert(InsertAll(rows, timestamp, es[..|es| - 1]), NewRow(es[|es| - 1], timestamp))
  }

  /** The rows the entries would become if none were skipped. */
  function NewRows(es: seq<Entry>, timestamp: int): (r: seq<Record>)
    ensures |r| == |es|
    ensures forall k :: 0 <= k < |es| ==> r[k] == NewRow(es[k], timestamp)
  {
    seq(|es|, k requires 0 <= k < |es| => NewRow(es[k], timestamp))
  }

  /** One entry of the import file's `mnemonics` list: either it carries
      exactly the parameters of `add_mnemonic`, or the call fails. */
  datatype Payload = Wellformed(entry: Entry) | Malformed

  /** The entries the loop reaches before the first malformed one. */
  function TakeWellformed(ps: seq<Payload>): (es: seq<Entry>)
    ensures |es| <= |ps|
    ensures forall k :: 0 <= k < |es| ==> ps[k] == Wellformed(es[k])
    ensures |es| < |ps| ==> ps[|es|].Malformed?
  {
    if ps == [] || ps[0].Malformed? then []
    else [ps[0].entry] + TakeWellformed(ps[1..])
  }

  /** The contract of `TakeWellformed` determines it: any run of well-formed
      entries that stops at the end or at a malformed one is what it takes. */
  lemma TakeWellformedUnique(ps: seq<Payload>, es: seq<Entry>)
    requires |es| <= |ps|
    requires forall k :: 0 <= k < |es| ==> ps[k] == Wellformed(es[k])
    requires |es| < |ps| ==> ps[|es|].Malformed?
    ensures TakeWellformed(ps) == es
  {
    var t := TakeWellformed(ps);
    assert |t| == |es|;
  }

  /** One more well-formed payload extends the run of entries taken. */
  lemma WellformedSnoc(ps: seq<Payload>, es: seq<Entry>, e: Entry)
    requires |es| < |ps| && ps[|es|] == Wellformed(e)
    requires forall k :: 0 <= k < |es| ==> ps[k] == Wellformed(es[k])
    ensures forall k :: 0 <= k < |es| + 1 ==> ps[k] == Wellformed((es + [e])[k])
  {
  }

  /** One more entry is one more insertion. */
  lemma InsertAllSnoc(rows: seq<Record>, timestamp: int, es: seq<Entry>, e: Entry)
    ensures InsertAll(rows, timestamp, es + [e]) == Insert(InsertAll(rows, timestamp, es), NewRow(e, timestamp))
  {
    assert (es + [e])[..|es|] == es;
  }

  // ---------------------------------------------------------------------
  // Properties of insertion

  /** Appending a row that is not a duplicate keeps the invariant. */
  lemma AppendKeepsNoDuplicateKeys(rows: seq<Record>, r: Record)
    requires !IsDuplicate(rows, r.koreanWord, r.meaning)
    ensures NoDuplicateKeys(rows) ==> NoDuplicateKeys(rows + [r])
  {
    if NoDuplicateKeys(rows) {
      var s := rows + [r];
      forall i, j | 0 <= i < j < |s|
        ensures !KeyMatches(s[j], s[i].koreanWord, s[i].meaning)
      {
        if j == |rows| {
          assert !KeyMatches(rows[i], r.koreanWord, r.meaning);
        }
      }
    }
  }

  /** The invariant holds exactly when every row is one that `add_mnemonic`
      would have accepted after the rows before it. */
  lemma NoDuplicateKeysIff(rows: seq<Record>)
    ensures NoDuplicateKeys(rows) <==>
            forall j :: 0 <= j < |rows| ==> !IsDuplicate(rows[..j], rows[j].koreanWord, rows[j].meaning)
  {
    if NoDuplicateKeys(rows) {
      forall j | 0 <= j < |rows| ensures !IsDuplicate(rows[..j], rows[j].koreanWord, rows[j].meaning) {
        if IsDuplicate(rows[..j], rows[j].koreanWord, rows[j].meaning) {
          var i :| 0 <= i < j && KeyMatches(rows[..j][i], rows[j].koreanWord, rows[j].meaning);
          assert KeyMatches(rows[j], rows[i].koreanWord, rows[i].meaning);
        }
      }
    } else {
      var i, j :| 0 <= i < j < |rows| && KeyMatches(rows[j], rows[i].koreanWord, rows[i].meaning);
      assert KeyMatches(rows[..j][i], rows[j].koreanWord, rows[j].meaning);
    }
  }

  /** A key that is present stays present after an insertion. */
  lemma InsertKeepsKey(rows: seq<Record>, r: Record, word: Cell, meaning: Cell)
    requires IsDuplicate(rows, word, meaning)
    ensures IsDuplicate(Insert(rows, r), word, meaning)
  {
    var i :| 0 <= i < |rows| && KeyMatches(rows[i], word, meaning);
    assert Insert(rows, r)[i] == rows[i];
  }

  /** After an insertion the inserted row's key is present, whether it was
      added or skipped. */
  lemma InsertHasKey(rows: seq<Record>, r: Record)
    requires r.koreanWord.Some? && r.meaning.Some?
    ensures IsDuplicate(Insert(rows, r), r.koreanWord, r.meaning)
  {
    if !IsDuplicate(rows, r.koreanWord, r.meaning) {
      assert (rows + [r])[|rows|] == r;
    }
  }

  // ---------------------------------------------------------------------
  // Properties of the import loop

  /** The import loop changes the table only at the end: the old rows stay
      in front, it grows by at most one row per entry, and every added row
      carries the shared timestamp. */
  lemma {:induction false} InsertAllShape(rows: seq<Record>, timestamp: int, es: seq<Entry>)
    ensures var r := InsertAll(rows, timestamp, es);
            && |rows| <= |r| <= |rows| + |es|
            && r[..|rows|] == rows
            && (forall k :: |rows| <= k < |r| ==> r[k].timestamp == Some(timestamp))
    decreases |es|
  {
    if es != [] {
      var es' := es[..|es| - 1];
      InsertAllShape(rows, timestamp, es');
    }
  }

  lemma NewRowsLast(es: seq<Entry>, timestamp: int)
    requires es != []
    ensures NewRows(es, timestamp) == NewRows(es[..|es| - 1], timestamp) + [NewRow(es[|es| - 1], timestamp)]
  {
  }

  /** The rows the import loop adds are the new rows of some of the entries,
      in entry order. */
  lemma {:induction false} InsertAllInOrder(rows: seq<Record>, timestamp: int, es: seq<Entry>)
    ensures |rows| <= |InsertAll(rows, timestamp, es)|
    ensures IsSubseq(InsertAll(rows, timestamp, es)[|rows|..], NewRows(es, timestamp))
    decreases |es|
  {
    if es == [] {
      assert InsertAll(rows, timestamp, es)[|rows|..] == [];
    } else {
      var es', row := es[..|es| - 1], NewRow(es[|es| - 1], timestamp);
      InsertAllInOrder(rows, timestamp, es');
      NewRowsLast(es, timestamp);
      var p := InsertAll(rows, timestamp, es');
      assert InsertAll(rows, timestamp, es) == Insert(p, row);
      AddedStep(rows, p, InsertAll(rows, timestamp, es), row, NewRows(es', timestamp));
    }
  }

  /** One step of the loop either skips `row` or appends it, so the added
      rows stay a subsequence of the new rows, now with `row` at the end. */
  lemma AddedStep(rows: seq<Record>, p: seq<Record>, t: seq<Record>, row: Record, ns: seq<Record>)
    requires |rows| <= |p| && IsSubseq(p[|rows|..], ns)
    requires t == p || t == p + [row]
    ensures IsSubseq(t[|rows|..], ns + [row])
  {
    if t == p {
      SubseqExtend(p[|rows|..], ns, row);
    } else {
      SubseqSnoc(p[|rows|..], ns, row);
      assert t[|rows|..] == p[|rows|..] + [row];
    }
  }

  /** After the loop, the key of every entry that names a word and a meaning
      is in the table. */
  lemma {:induction false} InsertAllHasKeys(rows: seq<Record>, timestamp: int, es: seq<Entry>)
    requires forall k :: 0 <= k < |es| ==> es[k].koreanWord.Some? && es[k].meaning.Some?
    ensures forall k :: 0 <= k < |es| ==>
              IsDuplicate(InsertAll(rows, timestamp, es), es[k].koreanWord, es[k].meaning)
    decreases |es|
  {
    if es != [] {
      var es', e := es[..|es| - 1], es[|es| - 1];
      InsertAllHasKeys(rows, timestamp, es');
      var p := InsertAll(rows, timestamp, es');
      var row := NewRow(e, timestamp);
      var t := InsertAll(rows, timestamp, es);
      assert t == Insert(p, row);
      forall k | 0 <= k < |es|
        ensures IsDuplicate(t, es[k].koreanWord, es[k].meaning)
      {
        if k < |es'| {
          assert es'[k] == es[k];
          InsertKeepsKey(p, row, es[k].koreanWord, es[k].meaning);
        } else {
          assert es[k] == e && row.koreanWord == e.koreanWord && row.meaning == e.meaning;
          InsertHasKey(p, row);
        }
      }
    }
  }

  /** When every entry's key is already present, the loop adds nothing. */
  lemma {:induction false} InsertAllOfPresentKeys(rows: seq<Record>, timestamp: int, es: seq<Entry>)
    requires forall k :: 0 <= k < |es| ==> IsDuplicate(rows, es[k].koreanWord, es[k].meaning)
    ensures InsertAll(rows, timestamp, es) == rows
    decreases |es|
  {
    if es != [] {
      var es' := es[..|es| - 1];
      assert forall k :: 0 <= k < |es'| ==> es'[k] == es[k];
      InsertAllOfPresentKeys(rows, timestamp, es');
    }
  }

  /** Importing the same file a second time (with any timestamp) adds no row. */
  lemma ReimportAddsNothing(rows: seq<Record>, timestamp: int, again: int, es: seq<Entry>)
    requires forall k :: 0 <= k < |es| ==> es[k].koreanWord.Some? && es[k].meaning.Some?
    ensures InsertAll(InsertAll(rows, timestamp, es), again, es) == InsertAll(rows, timestamp, es)
  {
    InsertAllHasKeys(rows, timestamp, es);
    InsertAllOfPresentKeys(InsertAll(rows, timestamp, es), again, es);
  }
}
