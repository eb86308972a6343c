/**
 * The state the analysis viewer keeps besides its view: the checklist of
 * completed resolution steps and the incident history list (the part of
 * `saveToLocalStorage` that shapes the list, and the history panel's
 * `deleteItem`). Storage, JSON and clocks are not modelled: the stored list,
 * the item id and the timestamp are parameters.
 */
module ViewerState {
  import opened Text

  // ---------------------------------------------------------------------------
  // Checklist of resolution steps
  // ---------------------------------------------------------------------------

  /** The set with the membership of `i` flipped. */
  function Toggle(s: set<int>, i: int): (r: set<int>)
    ensures i in r <==> i !in s
    ensures forall j | j != i :: j in r <==> j in s
    ensures |r| == if i in s then |s| - 1 else |s| + 1
  {
    if i in s then s - {i} else s + {i}
  }

  /** Toggling the same step twice restores the set. */
  lemma ToggleTwice(s: set<int>, i: int)
    ensures Toggle(Toggle(s, i), i) == s
  {
  }

  /** Toggling different steps commutes. */
  lemma ToggleCommutes(s: set<int>, i: int, j: int)
    ensures Toggle(Toggle(s, i), j) == Toggle(Toggle(s, j), i)
  {
  }

  /** The `completedSteps` signal and the members that read and update it. */
  class Checklist {
    var completedSteps: set<int>

    constructor ()
      ensures completedSteps == {}
    {
      completedSteps := {};
    }

    /** Cleared whenever a new analysis is shown. */
    method Reset()
      modifies this
      ensures completedSteps == {}
    {
      completedSteps := {};
    }

    /** `toggleStep`: copies the set and adds or deletes `index`. */
    method ToggleStep(index: int)
      modifies this
      ensures completedSteps == Toggle(old(completedSteps), index)
      ensures IsStepComplete(index) == !old(IsStepComplete(index))
      ensures CompletedStepsCount() == if old(IsStepComplete(index)) then old(CompletedStepsCount()) - 1 else old(CompletedStepsCount()) + 1
    {
      var newSet := completedSteps;
      if index in newSet {
        newSet := newSet - {index};
      } else {
        newSet := newSet + {index};
      }
      completedSteps := newSet;
    }

    function IsStepComplete(index: int): bool
      reads this
    {
      index in completedSteps
    }

    function CompletedStepsCount(): nat
      reads this
    {
      |completedSteps|
    }
  }

  // ---------------------------------------------------------------------------
  // Incident history
  // ---------------------------------------------------------------------------

  /** A saved analysis; `A` stands for the analysis record, which the list logic never inspects. */
  datatype HistoryItem<A> = HistoryItem(id: string, timestamp: string, analysis: A, logSnippet: string)

  const HistoryLimit: nat := 50
  const SnippetLength: nat := 200

  /** `s.substring(0, n)`. */
  function Head(s: string, n: nat): (r: string)
    ensures |r| <= n && IsPrefix(r, s)
    ensures |s| <= n ==> r == s
    ensures |s| > n ==> |r| == n
  {
    if |s| <= n then s else s[..n]
  }

  /** The item `saveToLocalStorage` builds: the snippet is the first 200 characters of the log. */
  function NewHistoryItem<A>(id: string, timestamp: string, analysis: A, originalLog: string): (r: HistoryItem<A>)
    ensures r.id == id && r.timestamp == timestamp && r.analysis == analysis
    ensures |r.logSnippet| <= SnippetLength && IsPrefix(r.logSnippet, originalLog)
    ensures |originalLog| <= SnippetLength ==> r.logSnippet == originalLog
    ensures |originalLog| > SnippetLength ==> r.logSnippet == originalLog[..SnippetLength]
  {
    HistoryItem(id, timestamp, analysis, Head(originalLog, SnippetLength))
  }

  /** The new item goes on top, and the list is cut to its first 50 entries. */
  method SaveToHistory<A>(historyItem: HistoryItem<A>, stored: seq<HistoryItem<A>>) returns (existing: seq<HistoryItem<A>>)
    ensures |existing| == if |stored| + 1 > HistoryLimit then HistoryLimit else |stored| + 1
    ensures existing[0] == historyItem
    ensures existing[1..] == stored[..|existing| - 1]
  {
    existing := stored;
    existing := [historyItem] + existing;
    if |existing| > HistoryLimit {
      existing := existing[..HistoryLimit];
    }
  }

  /** `deleteItem`: every item with that id is dropped, the others keep their order. */
  function DeleteItem<A(!new)>(items: seq<HistoryItem<A>>, id: string): (r: seq<HistoryItem<A>>)
    ensures forall x :: x in r <==> x in items && x.id != id
    ensures forall x {:trigger multiset(r)[x]} :: multiset(r)[x] == if x.id != id then multiset(items)[x] else 0
    ensures |r| <= |items|
    decreases |items|
  {
    if items == [] then []
    else
      var rest := DeleteItem(items[1..], id);
      assert forall x | x in items[1..] :: x in items;
      assert items == [items[0]] + items[1..];
      if items[0].id != id then [items[0]] + rest else rest
  }

  lemma {:induction false} DeleteItemInOrder<A(!new)>(items: seq<HistoryItem<A>>, id: string)
    ensures IsSubsequence(DeleteItem(items, id), items)
    decreases |items|
  {
    if items == [] {
      EmptyIsSubsequence(items);
    } else {
      DeleteItemInOrder(items[1..], id);
      var rest := DeleteItem(items[1..], id);
      var idx :| EmbedsAt(rest, items[1..], idx);
      assert items == [items[0]] + items[1..];
      if items[0].id != id {
        EmbedCons(items[0], rest, items[1..], idx);
      } else {
        EmbedSkip(items[0], rest, items[1..], idx);
      }
    }
  }

  /** Deleting an id that no item has changes nothing. */
  lemma {:induction false} DeleteAbsent<A(!new)>(items: seq<HistoryItem<A>>, id: string)
    requires forall k | 0 <= k < |items| :: items[k].id != id
    ensures DeleteItem(items, id) == items
    decreases |items|
  {
    if items != [] {
      DeleteAbsent(items[1..], id);
      assert items == [items[0]] + items[1..];
    }
  }
}
