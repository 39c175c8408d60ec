/** The in-memory leaderboard of src/index.js: the module-level array and the
    three handlers that use it (GET, POST and DELETE /leaderboard). */
module Store {
  import opened Wrappers
  import opened Entries
  import opened Ranking

  class Leaderboard {
    /** The stored entries, in insertion order. */
    var entries: seq<Entry>

    /** Every stored entry passed the submission guard, so its names are
        non-empty. */
    ghost predicate Valid()
      reads this
    {
      forall i :: 0 <= i < |entries| ==> WellFormed(entries[i])
    }

    /** A fresh process starts with an empty leaderboard. */
    constructor ()
      ensures Valid() && entries == []
    {
      entries := [];
    }

    /** POST /leaderboard. A body that fails the guard is refused and the
        store is untouched; an accepted body is turned into an entry with the
        given id and date, appended at the end, and returned. */
    method Submit(p: Payload, id: int, date: string) returns (r: Result<Entry, SubmitError>)
      requires Valid()
      modifies this
      ensures Valid()
      ensures !Accepts(p) ==> r == Err(MissingRequiredFields) && entries == old(entries)
      ensures Accepts(p) ==> r == Ok(MakeEntry(p, id, date)) && entries == old(entries) + [r.value]
    {
      if !Accepts(p) {
        return Err(MissingRequiredFields);
      }
      var entry := MakeEntry(p, id, date);
      entries := entries + [entry];
      r := Ok(entry);
    }

    /** GET /leaderboard: the ranked read of a copy; the store is not changed. */
    method Ranked() returns (top: seq<Entry>)
      ensures top == TopList(entries)
      ensures |top| == Min(|entries|, TopLimit)
      ensures forall i :: 0 <= i < |top| - 1 ==> top[i].finalScore >= top[i + 1].finalScore
      ensures multiset(top) <= multiset(entries)
      ensures |entries| <= TopLimit ==> multiset(top) == multiset(entries)
      ensures forall e :: e in multiset(entries) - multiset(top) ==>
        0 < |top| && e.finalScore <= top[|top| - 1].finalScore
    {
      var copy := entries;
      var sorted := SortByScore(copy);
      top := sorted[..Min(|sorted|, TopLimit)];
      TopListSpec(copy);
      TopListOmitted(copy);
    }

    /** DELETE /leaderboard: the store becomes empty, so the next ranked read
        is empty too. */
    method Clear()
      modifies this
      ensures Valid() && entries == []
      ensures TopList(entries) == []
    {
      entries := [];
    }
  }
}
