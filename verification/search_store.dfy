/**
 * The search-history store: a most-recent-first list of distinct, trimmed queries of
 * bounded length. The history transformation is written once, with the cap as a
 * parameter, and reused by the newer profile store for its per-profile history.
 */
module SearchStore {
  import opened Lists
  import opened Text

  const MaxHistoryItems := 1000

  /**
   * `r` is `history` after the non-blank trimmed query `q` was remembered with room for
   * `cap` entries: `q` in front, then the entries of `history` with its first copy of `q`
   * removed, in their order, as many as fit.
   */
  ghost predicate Remembers(history: seq<string>, q: string, cap: nat, r: seq<string>) {
    var rest := RemoveFirst(history, q);
    && 0 < |r| <= cap
    && |r| == (if |rest| < cap then |rest| + 1 else cap)
    && r[0] == q
    && r[1..] == rest[..|r| - 1]
  }

  /**
   * Adding a query with room for `cap` entries: a blank query changes nothing; otherwise
   * the trimmed query moves to (or enters at) the front, at most one earlier copy of it
   * is dropped, the other entries keep their order, and the list is cut to `cap`.
   */
  function Remember(history: seq<string>, query: string, cap: nat): (r: seq<string>)
    requires cap > 0
    ensures Trim(query) == "" ==> r == history
    ensures Trim(query) != "" ==> Remembers(history, Trim(query), cap, r)
  {
    var q := Trim(query);
    if q == "" then history
    else
      var rest := RemoveFirst(history, q);
      var grown := [q] + rest;
      var r := if |grown| > cap then grown[..cap] else grown;
      CappedFront(q, rest, cap, r);
      r
  }

  /** The list `[q] + rest`, cut to `cap` entries: `q`, then as much of `rest` as fits, in order. */
  lemma CappedFront(q: string, rest: seq<string>, cap: nat, r: seq<string>)
    requires cap > 0
    requires r == if |[q] + rest| > cap then ([q] + rest)[..cap] else [q] + rest
    ensures 0 < |r| <= cap && |r| == (if |rest| < cap then |rest| + 1 else cap)
    ensures r[0] == q && r[1..] == rest[..|r| - 1]
  {
    if |[q] + rest| > cap {
      assert r == [q] + rest[..cap - 1];
    } else {
      assert r[1..] == rest;
    }
  }

  /** Remembering a query in a duplicate-free history leaves it duplicate-free, the query occurring once. */
  lemma RememberNoDups(history: seq<string>, query: string, cap: nat)
    requires cap > 0 && NoDups(history) && Trim(query) != ""
    ensures NoDups(Remember(history, query, cap))
    ensures multiset(Remember(history, query, cap))[Trim(query)] == 1
  {
    var q := Trim(query);
    RemoveFirstNoDups(history, q);
    var r := Remember(history, query, cap);
    assert r[1..] <= RemoveFirst(history, q);
    FreshHeadNoDups(q, RemoveFirst(history, q), r);
  }

  /** A fresh element in front of a prefix of a duplicate-free list: no duplicates, the element once. */
  lemma FreshHeadNoDups(q: string, rest: seq<string>, r: seq<string>)
    requires NoDups(rest) && q !in rest
    requires |r| > 0 && r[0] == q && r[1..] <= rest
    ensures NoDups(r)
    ensures multiset(r)[q] == 1
  {
    var kept := r[1..];
    assert kept == rest[..|kept|];
    PrefixNoDups(rest, |kept|);
    assert q !in kept;
    ConsNoDups(q, kept);
    assert r == [q] + kept;
    assert multiset(r) == multiset{q} + multiset(kept);
  }

  /** `addToHistory`: `Remember` with room for `MAX_HISTORY_ITEMS` (1000) queries. */
  function AddToHistory(history: seq<string>, query: string): (r: seq<string>)
    ensures Trim(query) == "" ==> r == history
    ensures Trim(query) != "" ==> Remembers(history, Trim(query), MaxHistoryItems, r)
    ensures Trim(query) != "" && NoDups(history) ==> NoDups(r) && multiset(r)[Trim(query)] == 1
  {
    var r := Remember(history, query, MaxHistoryItems);
    assert Trim(query) != "" && NoDups(history) ==> NoDups(r) && multiset(r)[Trim(query)] == 1 by {
      if Trim(query) != "" && NoDups(history) {
        RememberNoDups(history, query, MaxHistoryItems);
      }
    }
    r
  }

  /**
   * `deleteHistoryItem(index)` (`splice(index, 1)`) for a non-negative index: an index
   * inside the list removes exactly that entry, one past the end or beyond changes nothing.
   */
  function DeleteHistoryItem(history: seq<string>, index: nat): (r: seq<string>)
    ensures index >= |history| ==> r == history
    ensures index < |history| ==>
      && |r| == |history| - 1
      && (forall k :: 0 <= k < index ==> r[k] == history[k])
      && (forall k :: index <= k < |r| ==> r[k] == history[k + 1])
    ensures index < |history| ==> multiset(r) + multiset{history[index]} == multiset(history)
  {
    if index < |history| then SpliceOut(history, index) else history
  }

  /**
   * Deleting the entry just added at the front takes the history back to what it was with
   * the query's earlier copy removed, when the cap did not cut anything; for a new query
   * that is the original history.
   */
  lemma DeleteUndoesAdd(history: seq<string>, query: string)
    requires Trim(query) != "" && |history| < MaxHistoryItems
    ensures DeleteHistoryItem(AddToHistory(history, query), 0) == RemoveFirst(history, Trim(query))
    ensures Trim(query) !in history ==> DeleteHistoryItem(AddToHistory(history, query), 0) == history
  {
    var r := AddToHistory(history, query);
    assert r[1..] == RemoveFirst(history, Trim(query));
  }

  /** `clearHistory`: the history becomes empty. */
  function ClearHistory(history: seq<string>): (r: seq<string>)
    ensures |r| == 0
  {
    []
  }
}
