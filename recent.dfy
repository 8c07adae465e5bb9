/** `get_recent`: the last `n` rows of the table (pandas `DataFrame.tail`)
    and the recall of each of their words. */
module Recent {
  import opened Records
  import opened Recall

  /** `DataFrame.tail(n)`: for `n >= 0` the last `min(n, |s|)` rows, for a
      negative `n` every row but the first `-n`; always a suffix. */
  function Tail<T>(s: seq<T>, n: int): (r: seq<T>)
    ensures n >= 0 ==> |r| == if n <= |s| then n else |s|
    ensures n < 0 ==> |r| == if -n <= |s| then |s| + n else 0
    ensures r == s[|s| - |r|..]
  {
    if n == 0 then []
    else if n > 0 then (if n >= |s| then s else s[|s| - n..])
    else (if -n >= |s| then [] else s[-n..])
  }

  /** What `get_recent(n)` shows: for each of the last rows, in table order,
      the recall of its word, which always finds that row. */
  function GetRecent(rows: seq<Record>, n: int, fold: string -> string): (outs: seq<RecallOutcome>)
    requires forall r :: r in Tail(rows, n) ==> r.koreanWord.Some?
    ensures |outs| == |Tail(rows, n)|
    ensures forall k :: 0 <= k < |outs| ==>
              outs[k] == RecallMnemonic(rows, Tail(rows, n)[k].koreanWord.value, false, fold)
    ensures forall k :: 0 <= k < |outs| ==> outs[k].Found? && Tail(rows, n)[k] in outs[k].matches
  {
    var t := Tail(rows, n);
    var outs := seq(|t|, k requires 0 <= k < |t| => RecallMnemonic(rows, t[k].koreanWord.value, false, fold));
    assert forall k :: 0 <= k < |t| ==> t[k] == rows[|rows| - |t| + k];
    forall k | 0 <= k < |t|
      ensures EitherMatches(t[k], t[k].koreanWord.value, false, fold)
    {
      var w := fold(t[k].koreanWord.value);
      assert w <= w;
    }
    outs
  }

  /** Right after construction the table is sorted by timestamp, so every row
      `get_recent` leaves out comes no later than every row it shows. */
  lemma RecentAreLatest(rows: seq<Record>, n: int)
    requires SortedByTime(rows)
    ensures var t := Tail(rows, n);
            forall i, k :: 0 <= i < |rows| - |t| && 0 <= k < |t| ==> TimeLE(rows[i], t[k])
  {
    var t := Tail(rows, n);
    forall i, k | 0 <= i < |rows| - |t| && 0 <= k < |t|
      ensures TimeLE(rows[i], t[k])
    {
      assert t[k] == rows[|rows| - |t| + k];
    }
  }
}
