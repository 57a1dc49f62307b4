/** The gateway's record store: `History` rows of (raw total, raw list,
    serialized result) kept by a repository that answers
    `findFirstByTotalAndList` and `save`. */
module HistoryStore {
  import opened Wrappers

  /** A stored computation, keyed by the raw strings it was asked with. */
  datatype History = History(total: string, list: string, result: string)

  predicate Matches(h: History, total: string, list: string) {
    h.total == total && h.list == list
  }

  /** The first record, in insertion order, whose key is exactly the given
      pair of strings. */
  function FindFirst(records: seq<History>, total: string, list: string): (r: Option<History>)
    ensures r.None? <==> forall i :: 0 <= i < |records| ==> !Matches(records[i], total, list)
    ensures r.Some? ==> exists i :: 0 <= i < |records| && records[i] == r.value && Matches(r.value, total, list)
                                    && forall j :: 0 <= j < i ==> !Matches(records[j], total, list)
  {
    if records == [] then None
    else if Matches(records[0], total, list) then Some(records[0])
    else
      var r := FindFirst(records[1..], total, list);
      assert forall i :: 1 <= i < |records| ==> records[1..][i - 1] == records[i];
      r
  }

  /** No two records share a key. */
  predicate UniqueKeys(records: seq<History>) {
    forall i, j :: 0 <= i < j < |records| ==> !Matches(records[j], records[i].total, records[i].list)
  }

  /** A record saved after a failed lookup is the only one with its key. */
  lemma SaveAfterMiss(records: seq<History>, h: History)
    requires FindFirst(records, h.total, h.list).None?
    ensures UniqueKeys(records) ==> UniqueKeys(records + [h])
    ensures FindFirst(records + [h], h.total, h.list) == Some(h)
  {
    var all := records + [h];
    forall i, j | 0 <= i < j < |all| && UniqueKeys(records)
      ensures !Matches(all[j], all[i].total, all[i].list)
    {
      if j == |records| {
        assert !Matches(records[i], h.total, h.list);
      }
    }
    FindFirstAppended(records, h);
  }

  /** When no record has the key of `h`, the lookup after appending `h`
      finds `h`. */
  lemma {:induction false} FindFirstAppended(records: seq<History>, h: History)
    requires FindFirst(records, h.total, h.list).None?
    ensures FindFirst(records + [h], h.total, h.list) == Some(h)
  {
    if records != [] {
      assert (records + [h])[1..] == records[1..] + [h];
      FindFirstAppended(records[1..], h);
    }
  }

  /** Appending a record does not change the answer for a key that already
      had one. */
  lemma {:induction false} FindFirstStable(records: seq<History>, h: History, total: string, list: string)
    requires FindFirst(records, total, list).Some?
    ensures FindFirst(records + [h], total, list) == FindFirst(records, total, list)
  {
    if !Matches(records[0], total, list) {
      assert (records + [h])[1..] == records[1..] + [h];
      FindFirstStable(records[1..], h, total, list);
    }
  }

  class HistoryRepository {
    var records: seq<History>

    constructor ()
      ensures records == []
    {
      records := [];
    }

    /** `findFirstByTotalAndList(total, list)`: `None` for Java's `null`. */
    method FindFirstByTotalAndList(total: string, list: string) returns (found: Option<History>)
      ensures found == FindFirst(records, total, list)
    {
      var i := 0;
      while i < |records|
        invariant 0 <= i <= |records|
        invariant FindFirst(records, total, list) == FindFirst(records[i..], total, list)
      {
        if Matches(records[i], total, list) {
          return Some(records[i]);
        }
        assert records[i..][1..] == records[i + 1..];
        i := i + 1;
      }
      found := None;
    }

    /** `save(history)` of a new entity: one more record at the end. */
    method Save(history: History)
      modifies this
      ensures records == old(records) + [history]
    {
      records := records + [history];
    }
  }
}
