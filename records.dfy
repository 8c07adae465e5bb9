/** The vocabulary record: one row of the manager's table, with the columns
    'Korean Word', 'Romanization', 'Meaning', 'Mnemonic', 'Visual', 'Notes'
    and 'Timestamp'. A cell the table has no value for (a pandas NaN) is
    `None`. */
module Records {
  import opened Options

  type Cell = Option<string>

  datatype Record = Record(
    koreanWord: Cell,
    romanization: Cell,
    meaning: Cell,
    mnemonic: Cell,
    visual: Cell,
    notes: Cell,
    timestamp: Option<int>)   // epoch seconds

  /** The arguments of one `add_mnemonic` call except the timestamp: the
      fields of one entry of an import file (a JSON null is `None`). */
  datatype Entry = Entry(
    koreanWord: Cell,
    romanization: Cell,
    meaning: Cell,
    mnemonic: Cell,
    visual: Cell,
    notes: Cell)

  /** The row `add_mnemonic` builds: the entry's fields as given, a falsy
      note (missing or empty) stored as the empty string, and the timestamp. */
  function NewRow(e: Entry, timestamp: int): (r: Record)
    ensures r.koreanWord == e.koreanWord && r.meaning == e.meaning
    ensures r.romanization == e.romanization && r.mnemonic == e.mnemonic && r.visual == e.visual
    ensures r.notes.Some?
    ensures r.notes.value == "" <==> e.notes.None? || e.notes.value == ""
    ensures r.notes.value != "" ==> r.notes == e.notes
    ensures r.timestamp == Some(timestamp)
  {
    Record(e.koreanWord, e.romanization, e.meaning, e.mnemonic, e.visual,
           Some(if e.notes.Some? && e.notes.value != "" then e.notes.value else ""),
           Some(timestamp))
  }

  /** The order of `sort_values(by='Timestamp', ascending=True)`: ascending
      timestamps, rows without a timestamp last. */
  predicate TimeLE(a: Record, b: Record) {
    match a.timestamp
    case None => b.timestamp.None?
    case Some(t) => b.timestamp.None? || t <= b.timestamp.value
  }

  predicate SortedByTime(s: seq<Record>) {
    forall i, j :: 0 <= i < j < |s| ==> TimeLE(s[i], s[j])
  }

  /** Places `x` before the first row it does not come after. */
  function InsertByTime(x: Record, s: seq<Record>): (r: seq<Record>)
    requires SortedByTime(s)
    ensures SortedByTime(r)
    ensures multiset(r) == multiset(s) + multiset{x}
    ensures forall k :: 0 <= k < |r| ==> r[k] == x || r[k] in s
  {
    if s == [] then [x]
    else if TimeLE(x, s[0]) then
      ConsSorted(x, s);
      [x] + s
    else
      var rest := InsertByTime(x, s[1..]);
      AfterHead(x, s, rest);
      ConsSorted(s[0], rest);
      [s[0]] + rest
  }

  /** When `x` goes after the head of the sorted table, the head comes no
      later than any row of the rest with `x` inserted. */
  lemma AfterHead(x: Record, s: seq<Record>, rest: seq<Record>)
    requires SortedByTime(s) && s != [] && !TimeLE(x, s[0])
    requires forall k :: 0 <= k < |rest| ==> rest[k] == x || rest[k] in s[1..]
    requires multiset(rest) == multiset(s[1..]) + multiset{x}
    ensures forall k :: 0 <= k < |rest| ==> TimeLE(s[0], rest[k])
    ensures multiset([s[0]] + rest) == multiset(s) + multiset{x}
    ensures forall k :: 0 <= k < |rest| + 1 ==> ([s[0]] + rest)[k] == x || ([s[0]] + rest)[k] in s
  {
    assert s == [s[0]] + s[1..];
    forall k | 0 <= k < |rest| ensures TimeLE(s[0], rest[k]) {
      if rest[k] != x {
        var j :| 0 <= j < |s[1..]| && s[1..][j] == rest[k];
        assert s[j + 1] == rest[k];
      }
    }
  }

  /** A row that comes no later than every row of a sorted table can be put
      in front of it. */
  lemma ConsSorted(h: Record, s: seq<Record>)
    requires SortedByTime(s) && forall k :: 0 <= k < |s| ==> TimeLE(h, s[k])
    ensures SortedByTime([h] + s)
  {
    var t := [h] + s;
    forall i, j | 0 <= i < j < |t| ensures TimeLE(t[i], t[j]) {
      assert t[j] == s[j - 1];
      if i > 0 {
        assert t[i] == s[i - 1];
      }
    }
  }

  /** The table as the constructor leaves it: sorted by timestamp and holding
      exactly the loaded rows. */
  function SortByTime(s: seq<Record>): (r: seq<Record>)
    ensures SortedByTime(r)
    ensures multiset(r) == multiset(s)
    ensures |r| == |s|
  {
    if s == [] then []
    else
      assert s == [s[0]] + s[1..];
      InsertByTime(s[0], SortByTime(s[1..]))
  }
}
