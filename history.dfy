/** The page's search history: the module-level `searchHistory` array, bounded to the
    fifteen most recent searches, and its persisted copy under the storage key
    `codex_search_history`. */
module History {
  import opened Wrappers

  /** Most records kept after an append. */
  const MaxHistoryLength: nat := 15

  /** One completed search. `time` (milliseconds since the epoch) doubles as the record's
      identity when it is deleted. */
  datatype SearchRecord = SearchRecord(originalQuery: string, time: int, query: string, url: string)

  /** The history after `addToSearchHistory(r)`: push `r`, then, if that made the history
      longer than the bound, shift off the single oldest record. The record ends up last,
      and the history grows by one while it is below the bound and keeps its length
      otherwise. */
  function Appended(h: seq<SearchRecord>, r: SearchRecord): (h': seq<SearchRecord>)
    ensures h' != [] && h'[|h'| - 1] == r
    ensures |h'| == if |h| < MaxHistoryLength then |h| + 1 else |h|
  {
    var pushed := h + [r];
    if |pushed| > MaxHistoryLength then pushed[1..] else pushed
  }

  /** The appended record is the newest; a history within the bound stays within it; an
      append that overflows drops exactly the oldest record and keeps the others in order,
      and any other append drops nothing. */
  lemma AppendedSpec(h: seq<SearchRecord>, r: SearchRecord)
    ensures var h' := Appended(h, r);
      && h' != [] && h'[|h'| - 1] == r
      && (|h| <= MaxHistoryLength ==> |h'| <= MaxHistoryLength)
      && (|h| + 1 > MaxHistoryLength ==> h' == h[1..] + [r])
      && (|h| + 1 <= MaxHistoryLength ==> h' == h + [r])
  {
    if |h| + 1 > MaxHistoryLength {
      assert (h + [r])[1..] == h[1..] + [r];
    }
  }

  /** The history after appending each of `rs` in turn. */
  function AppendAll(h: seq<SearchRecord>, rs: seq<SearchRecord>): seq<SearchRecord> {
    if rs == [] then h else Appended(AppendAll(h, rs[..|rs| - 1]), rs[|rs| - 1])
  }

  /** The last `min(|s|, n)` elements of `s`. */
  function Latest(s: seq<SearchRecord>, n: nat): (r: seq<SearchRecord>)
    ensures |r| <= n && |r| <= |s|
  {
    if |s| <= n then s else s[|s| - n..]
  }

  /** One append moves the window of the latest records one place on. */
  lemma AppendedLatest(s: seq<SearchRecord>, r: SearchRecord)
    ensures Appended(Latest(s, MaxHistoryLength), r) == Latest(s + [r], MaxHistoryLength)
  {
    var n := MaxHistoryLength;
    if |s| > n {
      assert (s[|s| - n..] + [r])[1..] == (s + [r])[|s| + 1 - n..];
    }
  }

  /** Starting from a history within the bound, any series of appends leaves exactly the
      latest fifteen of all the records, oldest first. */
  lemma {:induction false} AppendAllKeepsLatest(h: seq<SearchRecord>, rs: seq<SearchRecord>)
    requires |h| <= MaxHistoryLength
    ensures AppendAll(h, rs) == Latest(h + rs, MaxHistoryLength)
  {
    if rs == [] {
      assert h + rs == h;
    } else {
      var init, last := rs[..|rs| - 1], rs[|rs| - 1];
      AppendAllKeepsLatest(h, init);
      AppendedLatest(h + init, last);
      assert h + rs == (h + init) + [last];
    }
  }

  /** From an empty history, the appended records are kept while there are at most
      fifteen of them, and only the latest fifteen afterwards. */
  lemma AppendAllFromEmpty(rs: seq<SearchRecord>)
    ensures AppendAll([], rs) == Latest(rs, MaxHistoryLength)
  {
    AppendAllKeepsLatest([], rs);
    assert [] + rs == rs;
  }

  /** Example: sixteen searches with distinct timestamps, appended to an empty history,
      leave the last fifteen in order; the first is gone. */
  lemma SixteenthAppendEvictsFirst(rs: seq<SearchRecord>)
    requires |rs| == MaxHistoryLength + 1 && UniqueTimes(rs)
    ensures AppendAll([], rs) == rs[1..]
    ensures rs[0] !in AppendAll([], rs)
  {
    AppendAllFromEmpty(rs);
    assert Latest(rs, MaxHistoryLength) == rs[1..];
  }

  /** The history after `deleteSearchHistoryItem(t)`: the records whose `time` differs
      from `t`, in their original order (`Array.prototype.filter`). */
  function Removed(h: seq<SearchRecord>, t: int): (h': seq<SearchRecord>)
    ensures |h'| <= |h|
    ensures forall x :: x in h' ==> x in h && x.time != t
  {
    if h == [] then []
    else (if h[0].time == t then [] else [h[0]]) + Removed(h[1..], t)
  }

  /** Deletion works record by record: on a concatenation it is the concatenation of the
      deletions, so the records that stay keep their relative order. */
  lemma {:induction false} RemovedDistributes(a: seq<SearchRecord>, b: seq<SearchRecord>, t: int)
    ensures Removed(a + b, t) == Removed(a, t) + Removed(b, t)
  {
    if a == [] {
      assert a + b == b;
    } else {
      assert (a + b)[1..] == a[1..] + b;
      RemovedDistributes(a[1..], b, t);
    }
  }

  /** Every record whose `time` differs from `t` survives the deletion. */
  lemma {:induction false} RemovedKeepsOthers(h: seq<SearchRecord>, t: int, x: SearchRecord)
    requires x in h && x.time != t
    ensures x in Removed(h, t)
  {
    if h[0] != x {
      RemovedKeepsOthers(h[1..], t, x);
    }
  }

  /** Deleting a timestamp no record carries changes nothing. */
  lemma {:induction false} RemovedAbsent(h: seq<SearchRecord>, t: int)
    requires forall x :: x in h ==> x.time != t
    ensures Removed(h, t) == h
  {
    if h != [] {
      RemovedAbsent(h[1..], t);
      assert h == [h[0]] + h[1..];
    }
  }

  /** Deleting twice is deleting once. */
  lemma RemovedIdempotent(h: seq<SearchRecord>, t: int)
    ensures Removed(Removed(h, t), t) == Removed(h, t)
  {
    RemovedAbsent(Removed(h, t), t);
  }

  /** How many records of `h` carry the timestamp `t`. */
  function Occurrences(h: seq<SearchRecord>, t: int): nat {
    if h == [] then 0 else (if h[0].time == t then 1 else 0) + Occurrences(h[1..], t)
  }

  /** Deletion removes exactly the records carrying `t`; when timestamps are unique and `t`
      is present, that is exactly one record. */
  lemma {:induction false} RemovedCount(h: seq<SearchRecord>, t: int)
    ensures |Removed(h, t)| == |h| - Occurrences(h, t)
    ensures Occurrences(h, t) == 0 <==> forall x :: x in h ==> x.time != t
  {
    if h != [] {
      RemovedCount(h[1..], t);
      assert forall x :: x in h ==> x == h[0] || x in h[1..];
    }
  }

  /** Timestamps are pairwise distinct, as the page assumes but does not enforce. */
  predicate UniqueTimes(h: seq<SearchRecord>) {
    forall i, j :: 0 <= i < j < |h| ==> h[i].time != h[j].time
  }

  /** Under unique timestamps, a timestamp occurs at most once. */
  lemma {:induction false} UniqueTimesOccurOnce(h: seq<SearchRecord>, t: int)
    requires UniqueTimes(h)
    ensures Occurrences(h, t) <= 1
  {
    if h != [] {
      assert UniqueTimes(h[1..]) by {
        forall i, j | 0 <= i < j < |h[1..]| ensures h[1..][i].time != h[1..][j].time {
          assert h[1..][i] == h[i + 1] && h[1..][j] == h[j + 1];
        }
      }
      UniqueTimesOccurOnce(h[1..], t);
      if h[0].time == t {
        RemovedCount(h[1..], t);
        forall x | x in h[1..] ensures x.time != t {
          var k :| 0 <= k < |h[1..]| && h[1..][k] == x;
          assert h[1..][k] == h[k + 1];
        }
      }
    }
  }

  /** Deleting the timestamp of a record present in a history with unique timestamps
      removes exactly one record. */
  lemma RemovedUniquePresent(h: seq<SearchRecord>, t: int)
    requires UniqueTimes(h)
    requires exists x :: x in h && x.time == t
    ensures |Removed(h, t)| == |h| - 1
  {
    RemovedCount(h, t);
    UniqueTimesOccurOnce(h, t);
  }

  /** The history the page starts from: the parsed stored array, or an empty history when
      the key is absent (`JSON.parse(null) || []`). */
  function Load(stored: Option<seq<SearchRecord>>): (h: seq<SearchRecord>)
    ensures stored.Some? ==> h == stored.value
    ensures stored.None? ==> h == []
  {
    stored.GetOr([])
  }

  /** The in-memory history together with the storage entry that mirrors it. */
  class HistoryStore {
    /** `searchHistory`, oldest first. */
    var history: seq<SearchRecord>
    /** The array stored under the key `codex_search_history`; `None` while the key is
        absent. */
    var stored: Option<seq<SearchRecord>>

    /** Reloading the storage entry would give back the in-memory history. */
    ghost predicate Valid()
      reads this
    {
      Load(stored) == history
    }

    /** The history keeps at most `MaxHistoryLength` records. */
    ghost predicate Bounded()
      reads this
    {
      |history| <= MaxHistoryLength
    }

    /** The page's start-up: the history is whatever storage holds, and nothing is written.
        A stored array is not cut down to the bound. */
    constructor (persisted: Option<seq<SearchRecord>>)
      ensures Valid()
      ensures stored == persisted && history == Load(persisted)
    {
      stored := persisted;
      history := Load(persisted);
    }

    /** `addToSearchHistory`: append with eviction of the oldest record on overflow, then
        persist the whole history. A bounded history stays bounded. */
    method Append(r: SearchRecord)
      requires Valid()
      modifies this
      ensures Valid() && stored == Some(history)
      ensures history == Appended(old(history), r)
      ensures old(Bounded()) ==> Bounded()
      ensures history != [] && history[|history| - 1] == r
    {
      ghost var before := history;
      history := history + [r];
      if |history| > MaxHistoryLength {
        history := history[1..];
      }
      stored := Some(history);
      AppendedSpec(before, r);
    }

    /** `deleteSearchHistoryItem`: keep the records whose `time` differs from `t`, then
        remove the storage entry and write the history back. */
    method RemoveByTime(t: int)
      requires Valid()
      modifies this
      ensures Valid() && stored == Some(history)
      ensures history == Removed(old(history), t)
      ensures old(Bounded()) ==> Bounded()
    {
      history := Removed(history, t);
      stored := None;
      stored := Some(history);
    }
  }
}
