/** `KoreanMnemonicsManager`: the table held in memory (`self.df`) and the
    CSV file it is written to after every successful insertion. Reading the
    file is abstract: the constructor receives what `pd.read_csv` returned,
    or `None` when there is no file. Saving replaces the file's contents by
    the current rows. */
module Manager {
  import opened Options
  import opened Records
  import opened Table

  class MnemonicsManager {
    /** The table, in its current order. */
    var rows: seq<Record>
    /** The persisted table: `None` while no file exists. */
    var stored: Option<seq<Record>>

    /** Loads the persisted rows (none when there is no file) and sorts them
        by timestamp, ascending, most recent at the end. */
    constructor (file: Option<seq<Record>>)
      ensures stored == file
      ensures rows == SortByTime(file.GetOr([]))
      ensures SortedByTime(rows) && multiset(rows) == multiset(file.GetOr([]))
      ensures NoDuplicateKeys(file.GetOr([])) ==> NoDuplicateKeys(rows)
    {
      stored := file;
      rows := SortByTime(file.GetOr([]));
      NoDuplicateKeysPermutation(file.GetOr([]), SortByTime(file.GetOr([])));
    }

    /** `_save_dataframe`: the file now holds the table's rows. */
    method Save()
      modifies this`stored
      ensures stored == Some(rows)
    {
      stored := Some(rows);
    }

    /** `add_mnemonic`: a row with the same word and the same meaning is
        skipped and nothing changes; otherwise the new row is appended at the
        end, the old rows are left as they were, and the table is saved. The
        table's invariant is kept. */
    method AddMnemonic(koreanWord: Cell, romanization: Cell, meaning: Cell, mnemonic: Cell,
                       visual: Cell, notes: Cell, timestamp: int) returns (added: bool)
      modifies this
      ensures added <==> !IsDuplicate(old(rows), koreanWord, meaning)
      ensures rows == Insert(old(rows), NewRow(Entry(koreanWord, romanization, meaning, mnemonic, visual, notes), timestamp))
      ensures added ==> rows == old(rows) + [NewRow(Entry(koreanWord, romanization, meaning, mnemonic, visual, notes), timestamp)]
      ensures added ==> stored == Some(rows)
      ensures !added ==> rows == old(rows) && stored == old(stored)
      ensures NoDuplicateKeys(old(rows)) ==> NoDuplicateKeys(rows)
    {
      var row := NewRow(Entry(koreanWord, romanization, meaning, mnemonic, visual, notes), timestamp);
      if IsDuplicate(rows, koreanWord, meaning) {
        return false;
      }
      ghost var before := rows;
      rows := rows + [row];
      Save();
      AppendKeepsNoDuplicateKeys(before, row);
      added := true;
    }

    /** The loop of `bulk_add_from_json`: the entries are added in file
        order, each with the file's one timestamp. A malformed entry stops
        the loop (`complete` is false); what was added before it stays. The
        file is saved whenever a row was added. */
    method BulkAddFromJson(timestamp: int, payloads: seq<Payload>) returns (complete: bool)
      modifies this
      ensures complete <==> forall k :: 0 <= k < |payloads| ==> payloads[k].Wellformed?
      ensures rows == InsertAll(old(rows), timestamp, TakeWellformed(payloads))
      ensures stored == if |rows| == |old(rows)| then old(stored) else Some(rows)
      ensures NoDuplicateKeys(old(rows)) ==> NoDuplicateKeys(rows)
    {
      ghost var before := rows;
      ghost var done: seq<Entry> := [];
      var i := 0;
      while i < |payloads| && payloads[i].Wellformed?
        invariant 0 <= i <= |payloads| && |done| == i
        invariant forall k :: 0 <= k < i ==> payloads[k] == Wellformed(done[k])
        invariant rows == InsertAll(before, timestamp, done)
        invariant |before| <= |rows|
        invariant stored == if |rows| == |before| then old(stored) else Some(rows)
      {
        var e := payloads[i].entry;
        assert payloads[i] == Wellformed(e);
        var _ := AddMnemonic(e.koreanWord, e.romanization, e.meaning, e.mnemonic, e.visual, e.notes, timestamp);
        InsertAllSnoc(before, timestamp, done, e);
        WellformedSnoc(payloads, done, e);
        done := done + [e];
        i := i + 1;
      }
      complete := i == |payloads|;
      TakeWellformedUnique(payloads, done);
    }
  }

  /** Adding the same word and meaning twice keeps one row; the second call
      reports the skip. */
  method DuplicateIsSkipped() {
    var m := new MnemonicsManager(None);
    var first := m.AddMnemonic(Some("안녕"), Some("annyeong"), Some("hello"), Some("m"), Some("v"), None, 100);
    var second := m.AddMnemonic(Some("안녕"), Some("annyeong2"), Some("hello"), Some("m2"), Some("v2"), Some("n"), 200);
    assert first && !second;
    assert |m.rows| == 1 && m.rows[0].notes == Some("");
  }
}
