/** The integer part of `get_stats`: the number of rows, of distinct words
    and meanings, of study sessions (distinct timestamps) and the most recent
    timestamp. */
module Stats {
  import opened Options
  import opened Seqs
  import opened Records
  import opened Table

  datatype Stats = Stats(total: nat, koreanWords: nat, englishMeanings: nat, sessions: nat, mostRecent: int)

  function Words(rows: seq<Record>): (c: seq<Cell>)
    ensures |c| == |rows| && forall i :: 0 <= i < |rows| ==> c[i] == rows[i].koreanWord
  {
    seq(|rows|, i requires 0 <= i < |rows| => rows[i].koreanWord)
  }

  function Meanings(rows: seq<Record>): (c: seq<Cell>)
    ensures |c| == |rows| && forall i :: 0 <= i < |rows| ==> c[i] == rows[i].meaning
  {
    seq(|rows|, i requires 0 <= i < |rows| => rows[i].meaning)
  }

  function Timestamps(rows: seq<Record>): (c: seq<Option<int>>)
    ensures |c| == |rows| && forall i :: 0 <= i < |rows| ==> c[i] == rows[i].timestamp
  {
    seq(|rows|, i requires 0 <= i < |rows| => rows[i].timestamp)
  }

  /** Some row has a timestamp; without one `get_stats` fails. */
  predicate HasTimestamp(rows: seq<Record>) {
    exists i :: 0 <= i < |rows| && rows[i].timestamp.Some?
  }

  /** The largest timestamp in the table. */
  function Latest(rows: seq<Record>): (t: int)
    requires HasTimestamp(rows)
    ensures exists i :: 0 <= i < |rows| && rows[i].timestamp == Some(t)
    ensures forall i :: 0 <= i < |rows| && rows[i].timestamp.Some? ==> rows[i].timestamp.value <= t
  {
    var p, r := rows[..|rows| - 1], rows[|rows| - 1];
    assert forall i :: 0 <= i < |p| ==> p[i] == rows[i];
    if !HasTimestamp(p) then
      r.timestamp.value
    else
      var t := Latest(p);
      if r.timestamp.Some? && r.timestamp.value > t then r.timestamp.value else t
  }

  /** The integer statistics. The distinct counts skip missing cells, as
      pandas `nunique` does, and are bounded by the number of rows; there is
      at least one session and at most one per row; the most recent
      timestamp is the largest session timestamp. */
  function GetStats(rows: seq<Record>): (s: Stats)
    requires HasTimestamp(rows)
    ensures s.total == |rows|
    ensures s.koreanWords == |Present(Words(rows))| <= s.total
    ensures s.englishMeanings == |Present(Meanings(rows))| <= s.total
    ensures s.sessions == |Present(Timestamps(rows))| && 1 <= s.sessions <= s.total
    ensures s.mostRecent in Present(Timestamps(rows))
    ensures forall t :: t in Present(Timestamps(rows)) ==> t <= s.mostRecent
  {
    var sessions := Present(Timestamps(rows));
    var i :| 0 <= i < |rows| && rows[i].timestamp.Some?;
    assert rows[i].timestamp.value in sessions;
    var latest := Latest(rows);
    forall t | t in sessions ensures t <= latest {
      var j :| 0 <= j < |rows| && Timestamps(rows)[j] == Some(t);
    }
    Stats(|rows|, |Present(Words(rows))|, |Present(Meanings(rows))|, |sessions|, latest)
  }

  /** Rows that all share one timestamp (one bulk import) make one session,
      and that timestamp is the most recent. */
  lemma SingleSession(rows: seq<Record>, t: int)
    requires rows != [] && forall i :: 0 <= i < |rows| ==> rows[i].timestamp == Some(t)
    ensures HasTimestamp(rows)
    ensures GetStats(rows).sessions == 1 && GetStats(rows).mostRecent == t
  {
    assert rows[0].timestamp.Some?;
    var sessions := Present(Timestamps(rows));
    assert t in sessions;
    assert sessions == {t};
  }

  /** Three rows imported at 100, 200 and 300: three rows and three
      sessions, the most recent at 300. */
  lemma ThreeSessions(rows: seq<Record>)
    requires |rows| == 3
    requires rows[0].timestamp == Some(100) && rows[1].timestamp == Some(200) && rows[2].timestamp == Some(300)
    ensures HasTimestamp(rows)
    ensures var s := GetStats(rows); s.total == 3 && s.sessions == 3 && s.mostRecent == 300
  {
    assert rows[0].timestamp.Some?;
    PresentOfThree(Timestamps(rows), 100, 200, 300);
    var s := GetStats(rows);
    assert s.mostRecent in {100, 200, 300};
    assert 300 <= s.mostRecent;
  }

  /** Three rows with distinct words and distinct meanings count three of
      each. */
  lemma ThreeDistinct(rows: seq<Record>, w1: string, w2: string, w3: string,
                      m1: string, m2: string, m3: string)
    requires |rows| == 3
    requires rows[0].koreanWord == Some(w1) && rows[1].koreanWord == Some(w2) && rows[2].koreanWord == Some(w3)
    requires w1 != w2 && w2 != w3 && w1 != w3
    requires rows[0].meaning == Some(m1) && rows[1].meaning == Some(m2) && rows[2].meaning == Some(m3)
    requires m1 != m2 && m2 != m3 && m1 != m3
    ensures |Present(Words(rows))| == 3 && |Present(Meanings(rows))| == 3
  {
    PresentOfThree(Words(rows), w1, w2, w3);
    PresentOfThree(Meanings(rows), m1, m2, m3);
  }

  /** Three cells holding three distinct values make three distinct values. */
  lemma PresentOfThree<T>(cells: seq<Option<T>>, x: T, y: T, z: T)
    requires |cells| == 3 && cells[0] == Some(x) && cells[1] == Some(y) && cells[2] == Some(z)
    requires x != y && y != z && x != z
    ensures Present(cells) == {x, y, z} && |Present(cells)| == 3
  {
    var s := Present(cells);
    assert x in s && y in s && z in s;
    forall v | v in s ensures v == x || v == y || v == z {
      var i :| 0 <= i < 3 && cells[i] == Some(v);
    }
    assert s == {x, y, z};
  }

  // ---------------------------------------------------------------------
  // The invariant bounds the table by its distinct words and meanings

  predicate KeysPresent(rows: seq<Record>) {
    forall i :: 0 <= i < |rows| ==> rows[i].koreanWord.Some? && rows[i].meaning.Some?
  }

  /** The (word, meaning) pairs of the table. */
  function Keys(rows: seq<Record>): (ks: set<(string, string)>)
    requires KeysPresent(rows)
    ensures forall k :: k in ks ==> Some(k.0) in Words(rows) && Some(k.1) in Meanings(rows)
  {
    if rows == [] then {}
    else
      var p, r := rows[..|rows| - 1], rows[|rows| - 1];
      assert forall i :: 0 <= i < |p| ==> p[i] == rows[i];
      assert Words(rows)[|rows| - 1] == r.koreanWord && Meanings(rows)[|rows| - 1] == r.meaning;
      forall k | k in Keys(p) ensures Some(k.0) in Words(rows) && Some(k.1) in Meanings(rows) {
        var i :| 0 <= i < |p| && Words(p)[i] == Some(k.0);
        var j :| 0 <= j < |p| && Meanings(p)[j] == Some(k.1);
        assert Words(rows)[i] == Some(k.0) && Meanings(rows)[j] == Some(k.1);
      }
      Keys(p) + {(r.koreanWord.value, r.meaning.value)}
  }

  /** Under the invariant every row has its own pair. */
  lemma {:induction false} KeysCount(rows: seq<Record>)
    requires KeysPresent(rows) && NoDuplicateKeys(rows)
    ensures |Keys(rows)| == |rows|
    decreases |rows|
  {
    if rows != [] {
      var p := rows[..|rows| - 1];
      LastKeyIsNew(rows);
      KeysCount(p);
    }
  }

  /** Under the invariant the last row's pair is not among the earlier ones,
      and the earlier rows keep the invariant. */
  lemma LastKeyIsNew(rows: seq<Record>)
    requires KeysPresent(rows) && NoDuplicateKeys(rows) && rows != []
    ensures var p := rows[..|rows| - 1];
            KeysPresent(p) && NoDuplicateKeys(p)
            && (rows[|rows| - 1].koreanWord.value, rows[|rows| - 1].meaning.value) !in Keys(p)
  {
    var p, r := rows[..|rows| - 1], rows[|rows| - 1];
    assert forall i :: 0 <= i < |p| ==> p[i] == rows[i];
    KeysOfRows(p);
    var k := (r.koreanWord.value, r.meaning.value);
    if k in Keys(p) {
      var i :| 0 <= i < |p| && k == (p[i].koreanWord.value, p[i].meaning.value);
      assert KeyMatches(rows[|rows| - 1], rows[i].koreanWord, rows[i].meaning);
    }
  }

  /** Every pair of `Keys` comes from a row. */
  lemma {:induction false} KeysOfRows(rows: seq<Record>)
    requires KeysPresent(rows)
    ensures forall k :: k in Keys(rows) ==>
              exists i :: 0 <= i < |rows| && k == (rows[i].koreanWord.value, rows[i].meaning.value)
    decreases |rows|
  {
    if rows != [] {
      var p := rows[..|rows| - 1];
      assert forall i :: 0 <= i < |p| ==> p[i] == rows[i];
      KeysOfRows(p);
    }
  }

  function Product(ws: set<string>, ms: set<string>): set<(string, string)> {
    set w, m | w in ws && m in ms :: (w, m)
  }

  lemma {:induction false} ProductSize(ws: set<string>, ms: set<string>)
    ensures |Product(ws, ms)| == |ws| * |ms|
    decreases ws
  {
    if ws != {} {
      var w :| w in ws;
      var rest := ws - {w};
      ProductSize(rest, ms);
      LineSize(w, ms);
      ProductSplit(w, rest, ms);
      assert rest + {w} == ws;
      assert |ws| == |rest| + 1;
      Distribute(|rest|, |ms|);
    }
  }

  lemma Distribute(a: nat, b: nat)
    ensures (a + 1) * b == a * b + b
  {
  }

  /** Taking one word out of the product leaves its line of pairs. */
  lemma ProductSplit(w: string, rest: set<string>, ms: set<string>)
    requires w !in rest
    ensures Product(rest + {w}, ms) == Product(rest, ms) + (set m | m in ms :: (w, m))
    ensures Product(rest, ms) !! (set m | m in ms :: (w, m))
  {
    var line := set m | m in ms :: (w, m);
    forall k | k in Product(rest + {w}, ms) ensures k in Product(rest, ms) + line {
      if k.0 != w {
        assert k.0 in rest;
      }
    }
    forall k | k in line ensures k !in Product(rest, ms) {
      assert k.0 == w;
    }
  }

  lemma {:induction false} LineSize(w: string, ms: set<string>)
    ensures |set m | m in ms :: (w, m)| == |ms|
    decreases ms
  {
    if ms != {} {
      var m :| m in ms;
      var rest := ms - {m};
      LineSize(w, rest);
      assert (set x | x in ms :: (w, x)) == (set x | x in rest :: (w, x)) + {(w, m)};
    }
  }

  lemma {:induction false} SubsetSize<T>(a: set<T>, b: set<T>)
    requires a <= b
    ensures |a| <= |b|
    decreases b
  {
    if a != {} {
      var x :| x in a;
      SubsetSize(a - {x}, b - {x});
    }
  }

  /** Under the invariant, with every word and meaning present, the table
      has at most as many rows as there are pairs of a distinct word and a
      distinct meaning. */
  lemma TotalBoundedByDistinctPairs(rows: seq<Record>)
    requires KeysPresent(rows) && NoDuplicateKeys(rows)
    ensures |rows| <= |Present(Words(rows))| * |Present(Meanings(rows))|
  {
    var ws, ms := Present(Words(rows)), Present(Meanings(rows));
    KeysCount(rows);
    assert Keys(rows) <= Product(ws, ms);
    SubsetSize(Keys(rows), Product(ws, ms));
    ProductSize(ws, ms);
  }
}
