/** `DemoService`: the compute-or-fetch gateway. A request carries the raw
    total and list strings; a stored record with exactly these strings
    answers it, otherwise the list and total are parsed, the subsets summing
    to the total are enumerated, serialized, saved under the raw strings and
    returned. */
module Service {
  import opened Wrappers
  import opened JavaLang
  import opened JavaStrings
  import opened FormParsing
  import opened Serialization
  import opened HistoryStore
  import opened StringBuilders

  /** The two raw strings of a request. */
  datatype Form = Form(total: string, list: string)

  /** `new RangeAddends(list, sum).calculateAddendsForSum()`, which is not
      part of this model: any function from the addend list and the sum to
      the found subsets, each in its set's iteration order. */
  type Enumerator = (seq<int>, int) -> seq<seq<int>>

  /** `xs` lists the elements of `s`, each exactly once, and nothing else. */
  ghost predicate ListsSet(xs: seq<int>, s: set<int>) {
    && (forall i, j :: 0 <= i < j < |xs| ==> xs[i] != xs[j])
    && (forall x :: x in xs <==> x in s)
  }

  /** Every finite set of `int`s can be listed, so the requirement on the
      order below can always be met. */
  lemma {:induction false} SetListed(s: set<int>) returns (xs: seq<int>)
    ensures ListsSet(xs, s)
    decreases |s|
  {
    if exists x :: x in s {
      var x :| x in s;
      var rest := SetListed(s - {x});
      xs := [x] + rest;
      assert forall i :: 0 <= i < |rest| ==> rest[i] != x by {
        forall i | 0 <= i < |rest| ensures rest[i] != x {
          assert rest[i] in rest;
        }
      }
      assert forall y :: y in xs <==> y == x || y in rest;
    } else {
      xs := [];
    }
  }

  /** The iteration order of the `HashSet` that `Collectors.toSet()` builds
      from a raw list, which `new LinkedList<>(addendSet)` copies. It depends
      on the values and on the order the stream inserts them, both fixed by
      the raw list string, so two lists with the same values may list them
      differently. Beyond listing each element of the set once, it is not
      part of this model. */
  type SetOrder = string -> seq<int>

  /** `order` lists the addend set of every list it is asked about. */
  ghost predicate ListsParsedSet(order: SetOrder, list: string) {
    ParseList(list).Ok? ==> ListsSet(order(list), ParseList(list).value)
  }

  /** The addend set and the sum read from a request, list first: the first
      literal that does not read as an `int` throws. */
  function ParseForm(form: Form): Result<(set<int>, int), Exception> {
    var addends :- ParseList(form.list);
    var sum :- ParseTotal(form.total);
    Ok((addends, sum))
  }

  /** What a request computes when no record answers it. */
  function Computed(form: Form, enumerate: Enumerator, order: SetOrder): Result<string, Exception> {
    var parsed :- ParseForm(form);
    Serialized(enumerate(order(form.list), parsed.1))
  }

  /** A request whose list or total does not read throws before the set is
      listed or enumerated, whatever the order and the enumerator. */
  lemma ParseFailureFirst(form: Form, enumerate: Enumerator, order: SetOrder)
    requires ParseForm(form).Err?
    ensures Computed(form, enumerate, order) == Err(ParseForm(form).error)
    ensures ParseList(form.list).Err? ==> Computed(form, enumerate, order) == Err(ParseList(form.list).error)
  {
  }

  /** A total with a blank character, padding included, never computes, so
      it is never saved. */
  lemma PaddedTotalFails(form: Form, k: int, enumerate: Enumerator, order: SetOrder)
    requires 0 <= k < |form.total| && form.total[k] <= ' '
    ensures Computed(form, enumerate, order).Err?
    ensures ParseList(form.list).Ok? ==> Computed(form, enumerate, order) == Err(NumberFormatException(form.total))
  {
    PaddedTotalRejected(form.total, k);
  }

  /** The store is keyed on the raw strings: `"2,3,5"` and `"2, 3, 5"` read
      as the same addends, yet a record saved for one does not answer the
      other. */
  lemma RawStringKeys(records: seq<History>, result: string)
    ensures ParseForm(Form("10", "2,3,5")) == ParseForm(Form("10", "2, 3, 5"))
    ensures FindFirst(records + [History("10", "2,3,5", result)], "10", "2, 3, 5")
            == FindFirst(records, "10", "2, 3, 5")
  {
    SpacedListSameSet();
    NoMatchAppended(records, History("10", "2,3,5", result), "10", "2, 3, 5");
  }

  /** Appending a record with another key leaves every lookup of that key
      as it was. */
  lemma {:induction false} NoMatchAppended(records: seq<History>, h: History, total: string, list: string)
    requires !Matches(h, total, list)
    ensures FindFirst(records + [h], total, list) == FindFirst(records, total, list)
  {
    if records == [] {
      assert [h][1..] == [];
    } else {
      assert (records + [h])[1..] == records[1..] + [h];
      NoMatchAppended(records[1..], h, total, list);
    }
  }

  class DemoService {
    const historyRepository: HistoryRepository
    /** How many times the enumerator has been invoked. */
    ghost var enumeratorCalls: nat

    constructor (historyRepository: HistoryRepository)
      ensures this.historyRepository == historyRepository && enumeratorCalls == 0
    {
      this.historyRepository := historyRepository;
      enumeratorCalls := 0;
    }

    /** `calculateSubsetsFromForm(form)`: a record whose raw strings equal the
        request's answers it without a save and without enumerating; on a
        miss the result is computed and exactly one record holding the raw
        strings and the result is appended. A parse or serialization
        failure throws before the save. */
    method CalculateSubsetsFromForm(form: Form, enumerate: Enumerator, order: SetOrder) returns (r: Result<string, Exception>)
      requires ListsParsedSet(order, form.list)
      modifies this, historyRepository
      ensures FindFirst(old(historyRepository.records), form.total, form.list).Some? ==>
                && r == Ok(FindFirst(old(historyRepository.records), form.total, form.list).value.result)
                && historyRepository.records == old(historyRepository.records)
                && enumeratorCalls == old(enumeratorCalls)
      ensures FindFirst(old(historyRepository.records), form.total, form.list).None? ==>
                && r == Computed(form, enumerate, order)
                && enumeratorCalls == old(enumeratorCalls) + (if ParseForm(form).Ok? then 1 else 0)
                && historyRepository.records
                   == old(historyRepository.records) + (if r.Ok? then [History(form.total, form.list, r.value)] else [])
      ensures UniqueKeys(old(historyRepository.records)) ==> UniqueKeys(historyRepository.records)
      ensures r.Ok? ==> FindFirst(historyRepository.records, form.total, form.list)
                        == Some(History(form.total, form.list, r.value))
    {
      var history := historyRepository.FindFirstByTotalAndList(form.total, form.list);
      if history.Some? {
        assert history.value == History(form.total, form.list, history.value.result);
        return Ok(history.value.result);
      }
      var addendSet := ParseList(form.list);
      if addendSet.Err? {
        return Err(addendSet.error);
      }
      var sum := ParseTotal(form.total);
      if sum.Err? {
        return Err(sum.error);
      }
      assert ParseForm(form) == Ok((addendSet.value, sum.value));
      var sumAddends := enumerate(order(form.list), sum.value);
      enumeratorCalls := enumeratorCalls + 1;
      var result := SerializeNestedSet(sumAddends);
      assert Computed(form, enumerate, order) == result;
      if result.Err? {
        return Err(result.error);
      }
      var newHistory := History(form.total, form.list, result.value);
      SaveAfterMiss(historyRepository.records, newHistory);
      historyRepository.Save(newHistory);
      return Ok(result.value);
    }

    /** `serializeNestedSet(subsets)`, run on a `StringBuilder`. */
    method SerializeNestedSet(subsets: seq<seq<int>>) returns (r: Result<string, Exception>)
      ensures r == Serialized(subsets)
    {
      var builder := new StringBuilder();
      var n := 0;
      while n < |subsets|
        invariant 0 <= n <= |subsets|
        invariant Built(subsets[..n]) == Ok(builder.chars)
      {
        var thrown := AppendSubsetTo(builder, subsets[n]);
        BuiltStep(subsets, n);
        if thrown.Some? {
          BuiltFailureSticks(subsets, n + 1);
          return Err(thrown.value);
        }
        n := n + 1;
      }
      assert subsets[..n] == subsets;
      r := Ok(Trim(builder.ToString()));
    }

    /** The body of the outer `forEach`: one subset's elements, each followed
        by a comma, after a `[`, then the last comma of the builder replaced
        by `] `; `Some(e)` when that replacement throws `e`. */
    method AppendSubsetTo(builder: StringBuilder, integers: seq<int>) returns (thrown: Option<Exception>)
      modifies builder
      ensures match AppendSubset(old(builder.chars), integers)
              case Ok(text) => thrown == None && builder.chars == text
              case Err(e) => thrown == Some(e) && builder.chars == old(builder.chars) + "[" + ElementsText(integers)
    {
      builder.Append("[");
      AppendElements(builder, integers);
      var index := builder.LastIndexOf(',');
      thrown := builder.Replace(index, index + 1, "] ");
    }

    /** The inner `forEach`: each element's decimal text and a comma. */
    method AppendElements(builder: StringBuilder, integers: seq<int>)
      modifies builder
      ensures builder.chars == old(builder.chars) + ElementsText(integers)
    {
      var k := 0;
      while k < |integers|
        invariant 0 <= k <= |integers|
        invariant builder.chars == old(builder.chars) + ElementsText(integers[..k])
      {
        var numeral := IntToString(integers[k]) + ",";
        ghost var before := builder.chars;
        builder.Append(numeral);
        ElementsTextStep(integers, k);
        assert before + numeral == old(builder.chars) + (ElementsText(integers[..k]) + numeral);
        k := k + 1;
      }
      assert integers[..k] == integers;
    }
  }

  /** Two identical requests in a row: once the first has produced a result,
      the second returns the same string, saves nothing and does not
      enumerate. */
  method RepeatedRequest(service: DemoService, form: Form, enumerate: Enumerator, order: SetOrder)
    returns (first: Result<string, Exception>, second: Result<string, Exception>)
    requires ListsParsedSet(order, form.list)
    modifies service, service.historyRepository
    ensures first.Ok? ==> second == first
    ensures first.Ok? ==> service.enumeratorCalls <= old(service.enumeratorCalls) + 1
    ensures first.Ok? ==> |service.historyRepository.records| <= |old(service.historyRepository.records)| + 1
  {
    first := service.CalculateSubsetsFromForm(form, enumerate, order);
    ghost var calls := service.enumeratorCalls;
    ghost var stored := service.historyRepository.records;
    second := service.CalculateSubsetsFromForm(form, enumerate, order);
    assert first.Ok? ==> service.enumeratorCalls == calls && service.historyRepository.records == stored;
  }
}
