/** The text `serializeNestedSet` produces for a collection of integer sets.
    Each collection is a `seq<seq<int>>` in the sets' iteration order.

    `Serialized` is the code as written: for each subset it appends `[`, then
    every element followed by a comma, and then replaces the LAST comma in the
    whole builder by `] `; the final text is trimmed. `Format` is the layout
    the output is meant to have: each subset as `[` + its elements joined by
    commas + `]`, subsets separated by one space. The lemmas show that the
    two agree whenever no subset is empty, and how they part when one is. */
module Serialization {
  import opened Wrappers
  import opened JavaLang
  import opened JavaStrings

  /** What the inner `forEach` appends for one subset: each element's text
      followed by a comma. */
  function ElementsText(xs: seq<int>): string {
    if xs == [] then "" else ElementsText(xs[..|xs| - 1]) + IntToString(xs[|xs| - 1]) + ","
  }

  /** The inner `forEach` one element further on. */
  lemma ElementsTextStep(xs: seq<int>, k: nat)
    requires k < |xs|
    ensures ElementsText(xs[..k + 1]) == ElementsText(xs[..k]) + (IntToString(xs[k]) + ",")
  {
    assert xs[..k + 1][..k] == xs[..k];
  }

  /** One step of the outer `forEach`: append `[` and the elements, then
      replace the last comma in the builder by `] `. */
  function AppendSubset(text: string, xs: seq<int>): Result<string, Exception> {
    var appended := text + "[" + ElementsText(xs);
    var index := LastIndexOf(appended, ',');
    Replace(appended, index, index + 1, "] ")
  }

  /** The builder's contents after the outer `forEach` has visited `subsets`. */
  function Built(subsets: seq<seq<int>>): Result<string, Exception> {
    if subsets == [] then Ok("")
    else
      var text :- Built(subsets[..|subsets| - 1]);
      AppendSubset(text, subsets[|subsets| - 1])
  }

  /** The outer `forEach` one subset further on. */
  lemma BuiltStep(subsets: seq<seq<int>>, n: nat)
    requires n < |subsets|
    ensures Built(subsets[..n + 1])
            == (if Built(subsets[..n]).Ok? then AppendSubset(Built(subsets[..n]).value, subsets[n])
                else Built(subsets[..n]))
  {
    assert subsets[..n + 1][..n] == subsets[..n];
  }

  /** `serializeNestedSet` as written: the trimmed builder contents, or the
      exception `replace` throws. */
  function Serialized(subsets: seq<seq<int>>): Result<string, Exception> {
    var text :- Built(subsets);
    Ok(Trim(text))
  }

  /** The texts of the elements of one subset. */
  function Numerals(xs: seq<int>): seq<string> {
    seq(|xs|, i requires 0 <= i < |xs| => IntToString(xs[i]))
  }

  /** One subset rendered as `[a,b,...]`. */
  function Bracketed(xs: seq<int>): string {
    "[" + Join(Numerals(xs), ',') + "]"
  }

  function Groups(subsets: seq<seq<int>>): seq<string> {
    seq(|subsets|, i requires 0 <= i < |subsets| => Bracketed(subsets[i]))
  }

  /** The intended output: the rendered subsets separated by single spaces. */
  function Format(subsets: seq<seq<int>>): string {
    Join(Groups(subsets), ' ')
  }

  predicate NoEmptySubset(subsets: seq<seq<int>>) {
    forall i :: 0 <= i < |subsets| ==> subsets[i] != []
  }

  /** The number of occurrences of `c` in `s`. */
  function Count(s: string, c: char): nat {
    if s == [] then 0 else (if s[0] == c then 1 else 0) + Count(s[1..], c)
  }

  /** The elements of a non-empty subset, each with its comma, are the
      comma-joined elements followed by one comma. */
  lemma {:induction false} ElementsTextJoin(xs: seq<int>)
    requires xs != []
    ensures ElementsText(xs) == Join(Numerals(xs), ',') + ","
  {
    if |xs| == 1 {
      ElementsTextSingle(xs);
    } else {
      ElementsTextJoin(xs[..|xs| - 1]);
      ElementsTextJoinStep(xs);
    }
  }

  /** A one-element subset's text is its numeral and a comma. */
  lemma ElementsTextSingle(xs: seq<int>)
    requires |xs| == 1
    ensures ElementsText(xs) == Join(Numerals(xs), ',') + ","
  {
    var numeral := IntToString(xs[0]);
    assert xs[..0] == [];
    assert ElementsText(xs) == "" + numeral + ",";
    assert Numerals(xs) == [numeral];
    assert Join([numeral], ',') == numeral;
  }

  lemma ElementsTextJoinStep(xs: seq<int>)
    requires |xs| >= 2
    requires ElementsText(xs[..|xs| - 1]) == Join(Numerals(xs[..|xs| - 1]), ',') + ","
    ensures ElementsText(xs) == Join(Numerals(xs), ',') + ","
  {
    var init := xs[..|xs| - 1];
    var last := IntToString(xs[|xs| - 1]);
    NumeralsSnoc(xs);
    JoinSnoc(Numerals(init), last, ',');
    CommaShift(ElementsText(init), Join(Numerals(init), ','), last);
  }

  /** The numerals of a subset are those of all but its last element, then
      the last one's. */
  lemma NumeralsSnoc(xs: seq<int>)
    requires xs != []
    ensures Numerals(xs) == Numerals(xs[..|xs| - 1]) + [IntToString(xs[|xs| - 1])]
  {
  }

  /** A text ending in a comma, extended by a numeral and a comma, is the
      text before that comma joined to the numeral, then a comma. */
  lemma CommaShift(text: string, body: string, last: string)
    requires text == body + ","
    ensures text + last + "," == body + [','] + last + ","
  {
  }

  /** For a non-empty subset the last comma is the one just appended, so one
      step adds exactly the rendered subset and a space. */
  lemma AppendNonEmptySubset(text: string, xs: seq<int>)
    requires xs != []
    ensures AppendSubset(text, xs) == Ok(text + Bracketed(xs) + " ")
  {
    ElementsTextJoin(xs);
    var body := Join(Numerals(xs), ',');
    var front := text + "[" + body;
    var appended := front + [','];
    assert text + "[" + ElementsText(xs) == appended;
    var i := |front|;
    assert LastIndexOf(appended, ',') == i;
    assert appended[..i] == front;
    assert appended[i + 1..] == [];
    assert appended[..i] + "] " + appended[i + 1..] == front + "] ";
    assert Replace(appended, i, i + 1, "] ") == Ok(front + "] ");
    assert front + "] " == text + Bracketed(xs) + " ";
  }

  /** With no empty subset, the builder holds the intended format followed by
      one space (nothing for an empty collection). */
  lemma {:induction false} BuiltWellFormed(subsets: seq<seq<int>>)
    requires NoEmptySubset(subsets)
    ensures Built(subsets) == Ok(if subsets == [] then "" else Format(subsets) + " ")
  {
    if subsets != [] {
      var init := subsets[..|subsets| - 1];
      var last := subsets[|subsets| - 1];
      assert subsets == init + [last];
      BuiltWellFormed(init);
      var text := if init == [] then "" else Format(init) + " ";
      assert Built(subsets) == AppendSubset(text, last);
      AppendNonEmptySubset(text, last);
      FormatStep(init, last);
    }
  }

  /** The intended text with its trailing space, one subset further on. */
  lemma FormatStep(init: seq<seq<int>>, last: seq<int>)
    ensures (if init == [] then "" else Format(init) + " ") + Bracketed(last) + " " == Format(init + [last]) + " "
  {
    FormatSnoc(init, last);
  }

  /** Adding a subset at the end adds a space and its rendering. */
  lemma FormatSnoc(init: seq<seq<int>>, last: seq<int>)
    ensures Format(init + [last]) == if init == [] then Bracketed(last) else Format(init) + " " + Bracketed(last)
  {
    assert Groups(init + [last]) == Groups(init) + [Bracketed(last)];
    if init != [] {
      JoinSnoc(Groups(init), Bracketed(last), ' ');
    }
  }

  /** The intended format starts with `[` and ends with `]`, unless the
      collection is empty. */
  lemma FormatEnds(subsets: seq<seq<int>>)
    requires subsets != []
    ensures |Format(subsets)| >= 2
    ensures Format(subsets)[0] == '['
    ensures Format(subsets)[|Format(subsets)| - 1] == ']'
  {
    var groups := Groups(subsets);
    if |subsets| == 1 {
      assert Format(subsets) == Bracketed(subsets[0]);
    } else {
      assert Format(subsets) == groups[0] + [' '] + Join(groups[1..], ' ');
      var init := subsets[..|subsets| - 1];
      assert groups == Groups(init) + [Bracketed(subsets[|subsets| - 1])];
      JoinSnoc(Groups(init), Bracketed(subsets[|subsets| - 1]), ' ');
    }
  }

  /** With no empty subset, the code as written produces the intended
      format: `""` for no subsets, otherwise `[..]` groups separated by
      single spaces with nothing around them. */
  lemma SerializeWellFormed(subsets: seq<seq<int>>)
    requires NoEmptySubset(subsets)
    ensures Serialized(subsets) == Ok(Format(subsets))
    ensures subsets == [] ==> Serialized(subsets) == Ok("")
    ensures Trimmed(Format(subsets))
  {
    if subsets == [] {
      SerializeNothing();
    } else {
      BuiltWellFormed(subsets);
      TrimFormatted(subsets);
    }
  }

  /** No subsets give the empty text. */
  lemma SerializeNothing()
    ensures Serialized([]) == Ok("") && Format([]) == ""
  {
    assert Trim("") == "";
  }

  /** Trimming the builder's text drops exactly the trailing space. */
  lemma TrimFormatted(subsets: seq<seq<int>>)
    requires subsets != []
    ensures Trimmed(Format(subsets))
    ensures Trim(Format(subsets) + " ") == Format(subsets)
  {
    var text := Format(subsets);
    FormatEnds(subsets);
    assert "" + text + " " == text + " ";
    TrimPadded("", text, " ");
  }

  /** Once a step throws, the rest of the loop is never reached. */
  lemma {:induction false} BuiltFailureSticks(subsets: seq<seq<int>>, n: nat)
    requires n <= |subsets| && Built(subsets[..n]).Err?
    ensures Built(subsets) == Built(subsets[..n])
    decreases |subsets| - n
  {
    if n < |subsets| {
      var init := subsets[..|subsets| - 1];
      assert init[..n] == subsets[..n];
      BuiltFailureSticks(init, n);
      assert subsets[..|subsets|] == subsets;
    } else {
      assert subsets[..n] == subsets;
    }
  }

  /** An empty first subset leaves no comma to find: `lastIndexOf` gives -1
      and `replace(-1, 0, "] ")` throws. */
  lemma FirstSubsetEmptyThrows(subsets: seq<seq<int>>)
    requires subsets != [] && subsets[0] == []
    ensures Serialized(subsets) == Err(StringIndexOutOfBoundsException(-1, 0, 1))
  {
    assert subsets[..1] == [[]];
    assert subsets[..1][..0] == [];
    assert LastIndexOf("[", ',') == -1;
    BuiltFailureSticks(subsets, 1);
  }

  /** The output equals the intended format exactly when no subset is
      empty. */
  lemma SerializedMatchesFormat(subsets: seq<seq<int>>)
    ensures Serialized(subsets) == Ok(Format(subsets)) <==> NoEmptySubset(subsets)
  {
    if NoEmptySubset(subsets) {
      SerializeWellFormed(subsets);
    } else {
      EmptySubsetSpoils(subsets);
    }
  }

  /** Any empty subset, wherever it stands, keeps the output from being the
      intended format: the format shows it as `[]`, which the builder never
      holds. */
  lemma EmptySubsetSpoils(subsets: seq<seq<int>>)
    requires !NoEmptySubset(subsets)
    ensures Serialized(subsets) != Ok(Format(subsets))
  {
    FormatShowsEmptySubset(subsets);
    BuiltShape(subsets);
    if Built(subsets).Ok? {
      TrimKeepsNoEmptyBrackets(Built(subsets).value);
    }
  }

  /** No `[` is directly followed by `]`. */
  predicate NoEmptyBrackets(s: string) {
    forall k :: 0 <= k < |s| - 1 ==> !(s[k] == '[' && s[k + 1] == ']')
  }

  /** No bracket at all. */
  predicate NoBrackets(s: string) {
    forall k :: 0 <= k < |s| ==> s[k] != '[' && s[k] != ']'
  }

  /** Every comma directly follows a digit. */
  predicate CommasAfterDigits(s: string) {
    forall k :: 0 <= k < |s| && s[k] == ',' ==> 0 < k && IsDigit(s[k - 1])
  }

  /** What the builder can hold between two steps of the outer `forEach`. */
  predicate BuilderShape(s: string) {
    NoEmptyBrackets(s) && CommasAfterDigits(s)
  }

  /** An empty subset shows as `[]` in the intended format. */
  lemma FormatShowsEmptySubset(subsets: seq<seq<int>>)
    requires !NoEmptySubset(subsets)
    ensures !NoEmptyBrackets(Format(subsets))
  {
    var i :| 0 <= i < |subsets| && subsets[i] == [];
    assert Numerals([]) == [];
    assert Groups(subsets)[i] == "[]";
    JoinShowsEmptyBrackets(Groups(subsets), ' ', i);
  }

  /** A part `[]` shows in the join of the parts. */
  lemma {:induction false} JoinShowsEmptyBrackets(parts: seq<string>, sep: char, i: nat)
    requires i < |parts| && parts[i] == "[]"
    ensures !NoEmptyBrackets(Join(parts, sep))
    decreases i
  {
    var joined := Join(parts, sep);
    if i == 0 {
      if |parts| > 1 {
        assert joined == parts[0] + [sep] + Join(parts[1..], sep);
      }
      assert joined[0] == '[' && joined[1] == ']';
    } else {
      var rest := Join(parts[1..], sep);
      assert parts[1..][i - 1] == "[]";
      JoinShowsEmptyBrackets(parts[1..], sep, i - 1);
      var k :| 0 <= k < |rest| - 1 && rest[k] == '[' && rest[k + 1] == ']';
      var offset := |parts[0]| + 1;
      assert joined == parts[0] + [sep] + rest;
      assert joined[offset + k] == rest[k] && joined[offset + k + 1] == rest[k + 1];
    }
  }

  /** The builder keeps its shape across the whole outer `forEach`. */
  lemma {:induction false} BuiltShape(subsets: seq<seq<int>>)
    ensures Built(subsets).Ok? ==> BuilderShape(Built(subsets).value)
    decreases |subsets|
  {
    if subsets != [] {
      var init := subsets[..|subsets| - 1];
      BuiltShape(init);
      if Built(init).Ok? {
        AppendSubsetShape(Built(init).value, subsets[|subsets| - 1]);
      }
    }
  }

  /** One outer step keeps the builder's shape. */
  lemma AppendSubsetShape(text: string, xs: seq<int>)
    requires BuilderShape(text)
    ensures AppendSubset(text, xs).Ok? ==> BuilderShape(AppendSubset(text, xs).value)
  {
    var appended := text + "[" + ElementsText(xs);
    AppendedShape(text, xs);
    var index := LastIndexOf(appended, ',');
    if 0 <= index {
      assert AppendSubset(text, xs) == Ok(appended[..index] + "] " + appended[index + 1..]);
      ReplacedShape(appended, index);
    }
  }

  /** Appending `[` and the elements keeps the builder's shape. */
  lemma AppendedShape(text: string, xs: seq<int>)
    requires BuilderShape(text)
    ensures BuilderShape(text + "[" + ElementsText(xs))
  {
    var elements := ElementsText(xs);
    var appended := text + "[" + elements;
    ElementsShape(xs);
    forall k | 0 <= k < |appended| && appended[k] == ','
      ensures 0 < k && IsDigit(appended[k - 1])
    {
      if |text| < k {
        assert appended[k] == elements[k - |text| - 1];
        assert appended[k - 1] == elements[k - |text| - 2];
      }
    }
    forall k | 0 <= k < |appended| - 1
      ensures !(appended[k] == '[' && appended[k + 1] == ']')
    {
      if |text| <= k {
        assert appended[k + 1] == elements[k - |text|];
      }
    }
  }

  /** Replacing the last comma, which follows a digit, by `] ` keeps the
      builder's shape. */
  lemma ReplacedShape(s: string, i: nat)
    requires BuilderShape(s) && i < |s| && s[i] == ','
    requires forall k :: i < k < |s| ==> s[k] != ','
    ensures BuilderShape(s[..i] + "] " + s[i + 1..])
  {
    var r := s[..i] + "] " + s[i + 1..];
    assert forall k :: 0 <= k < i ==> r[k] == s[k];
    assert r[i] == ']' && r[i + 1] == ' ';
    assert forall k :: i + 2 <= k < |r| ==> r[k] == s[k - 1];
    assert IsDigit(s[i - 1]);
  }

  /** The elements' text holds no bracket, and each of its commas follows a
      digit. */
  lemma {:induction false} ElementsShape(xs: seq<int>)
    ensures NoBrackets(ElementsText(xs))
    ensures CommasAfterDigits(ElementsText(xs))
    decreases |xs|
  {
    if xs != [] {
      var init := ElementsText(xs[..|xs| - 1]);
      var numeral := IntToString(xs[|xs| - 1]);
      ElementsShape(xs[..|xs| - 1]);
      IntToStringEndsInDigit(xs[|xs| - 1]);
      var e := init + numeral + ",";
      assert ElementsText(xs) == e;
      forall k | 0 <= k < |e|
        ensures e[k] != '[' && e[k] != ']'
        ensures e[k] == ',' ==> 0 < k && IsDigit(e[k - 1])
      {
        if k < |init| {
          assert e[k] == init[k];
          assert 0 < k ==> e[k - 1] == init[k - 1];
        } else if k < |init| + |numeral| {
          assert e[k] == numeral[k - |init|];
        } else {
          assert e[k - 1] == numeral[|numeral| - 1];
        }
      }
    }
  }

  /** The text of an `int` ends in a digit. */
  lemma IntToStringEndsInDigit(x: int)
    ensures IsDigit(IntToString(x)[|IntToString(x)| - 1])
  {
    if x < 0 {
      var magnitude := IntToString(-x);
      assert magnitude[0] != '-';
      assert IntToString(x) == "-" + magnitude;
    }
  }

  /** Trimming cuts a slice, so it keeps the absence of `[]`. */
  lemma TrimKeepsNoEmptyBrackets(s: string)
    requires NoEmptyBrackets(s)
    ensures NoEmptyBrackets(Trim(s))
  {
    TrimSlice(s);
    var st := LeadingBlanks(s);
    MiddleKeepsNoEmptyBrackets(s, s[..st], Trim(s), s[st + |Trim(s)|..]);
  }

  /** The middle `t` of a text without `[]` has none either. */
  lemma MiddleKeepsNoEmptyBrackets(s: string, p: string, t: string, q: string)
    requires NoEmptyBrackets(s) && s == p + t + q
    ensures NoEmptyBrackets(t)
  {
    assert forall k :: 0 <= k < |t| ==> t[k] == s[|p| + k];
  }

  /** An empty subset when the builder holds no comma: `lastIndexOf` gives
      -1 and `replace(-1, 0, "] ")` throws. */
  lemma EmptySubsetWithoutCommaThrows(text: string)
    requires ',' !in text
    ensures AppendSubset(text, []) == Err(StringIndexOutOfBoundsException(-1, 0, |text| + 1))
  {
    var appended := text + "[" + ElementsText([]);
    assert appended == text + "[";
    assert ',' !in appended;
    assert LastIndexOf(appended, ',') == -1;
  }

  /** The code as written on `{5}` followed by an empty set: the only comma
      was already replaced, so the empty set throws. */
  lemma EmptySubsetAfterSingletonExample()
    ensures Serialized([[5], []]) == Err(StringIndexOutOfBoundsException(-1, 0, 5))
  {
    var subsets: seq<seq<int>> := [[5], []];
    assert subsets[..1] == [[5]];
    assert subsets[..1][..0] == [];
    SingletonBuilt();
    EmptySubsetWithoutCommaThrows("[5] ");
    assert subsets[..|subsets| - 1] == [[5]];
  }

  /** The subset `{5}` alone builds `[5] `. */
  lemma SingletonBuilt()
    ensures Built([[5]]) == Ok("[5] ")
  {
    BuiltWellFormed([[5]]);
    assert IntToString(5) == "5";
    assert Numerals([5]) == ["5"];
    assert Join(["5"], ',') == "5";
    assert Bracketed([5]) == "[5]";
    assert Groups([[5]]) == ["[5]"];
    assert Format([[5]]) == "[5]";
    assert Format([[5]]) + " " == "[5] ";
  }

  /** Characters appended after the last occurrence do not move it. */
  lemma {:induction false} LastIndexOfBefore(a: string, b: string, c: char)
    requires c !in b
    ensures LastIndexOf(a + b, c) == LastIndexOf(a, c)
  {
    if b != [] {
      var init := b[..|b| - 1];
      assert (a + b)[..|a + b| - 1] == a + init;
      LastIndexOfBefore(a, init, c);
    } else {
      assert a + b == a;
    }
  }

  /** The code as written on `{1,2}` followed by an empty set. */
  lemma EmptySubsetAfterPairExample()
    ensures Serialized([[1, 2], []]) == Ok("[1] 2] [")
  {
    var subsets: seq<seq<int>> := [[1, 2], []];
    PairBuilt();
    assert subsets[..|subsets| - 1] == [[1, 2]];
    assert Built(subsets) == AppendSubset("[1,2] ", []);
    EmptyAfterPair();
    assert "" + "[1] 2] [" + "" == "[1] 2] [";
    TrimPadded("", "[1] 2] [", "");
  }

  /** The step for the empty set, after `{1,2}`. */
  lemma EmptyAfterPair()
    ensures AppendSubset("[1,2] ", []) == Ok("[1] 2] [")
  {
    var appended := "[1,2] " + "[" + ElementsText([]);
    assert appended == "[1," + "2] [";
    LastIndexOfBefore("[1,", "2] [", ',');
    assert LastIndexOf(appended, ',') == 2;
    assert appended[..2] + "] " + appended[3..] == "[1] 2] [";
  }

  /** The builder after the set `{1,2}` alone. */
  lemma PairBuilt()
    ensures Built([[1, 2]]) == Ok("[1,2] ")
  {
    BuiltWellFormed([[1, 2]]);
    assert IntToString(1) == "1" && IntToString(2) == "2";
    assert Numerals([1, 2]) == ["1", "2"];
    assert Join(["1", "2"], ',') == "1,2";
    assert Bracketed([1, 2]) == "[1,2]";
    assert Groups([[1, 2]]) == ["[1,2]"];
    assert Format([[1, 2]]) == "[1,2]";
    assert Format([[1, 2]]) + " " == "[1,2] ";
  }

  /** Each rendered subset contributes exactly one `[`. */
  lemma {:induction false} FormatBracketCount(subsets: seq<seq<int>>)
    ensures Count(Format(subsets), '[') == |subsets|
  {
    var groups := Groups(subsets);
    if |subsets| == 1 {
      BracketedCount(subsets[0]);
    } else if |subsets| > 1 {
      assert groups[1..] == Groups(subsets[1..]);
      FormatBracketCount(subsets[1..]);
      BracketedCount(subsets[0]);
      CountAppend(groups[0], [' '], '[');
      CountAppend(groups[0] + [' '], Join(groups[1..], ' '), '[');
    }
  }

  lemma BracketedCount(xs: seq<int>)
    ensures Count(Bracketed(xs), '[') == 1
  {
    var body := Join(Numerals(xs), ',');
    NumeralsAvoid(xs, '[');
    CountAbsent(body, '[');
    CountAppend("[", body, '[');
    CountAppend("[" + body, "]", '[');
  }

  /** No element text holds a separator or bracket character. */
  lemma NumeralsAvoid(xs: seq<int>, c: char)
    requires c == '[' || c == ']' || c == ',' || c == ' '
    ensures c !in Join(Numerals(xs), ',') || c == ','
    ensures forall i :: 0 <= i < |xs| ==> c !in Numerals(xs)[i]
  {
    var ns := Numerals(xs);
    forall i | 0 <= i < |xs|
      ensures c !in ns[i]
    {
      var t := IntToString(xs[i]);
    }
    if c != ',' {
      JoinAvoids(ns, ',', c);
    }
  }

  lemma {:induction false} CountAppend(a: string, b: string, c: char)
    ensures Count(a + b, c) == Count(a, c) + Count(b, c)
  {
    if a != [] {
      assert (a + b)[1..] == a[1..] + b;
      CountAppend(a[1..], b, c);
    } else {
      assert a + b == b;
    }
  }

  lemma {:induction false} CountAbsent(s: string, c: char)
    requires c !in s
    ensures Count(s, c) == 0
  {
    if s != [] {
      CountAbsent(s[1..], c);
    }
  }

  /** Reads back a list of element literals. */
  function ParseNumerals(literals: seq<string>): Option<seq<int>> {
    if literals == [] then Some([])
    else
      match (ParseInt(literals[0]), ParseNumerals(literals[1..]))
      case (Some(x), Some(xs)) => Some([x] + xs)
      case _ => None
  }

  /** Reads back one `[a,b,...]` group. */
  function ParseGroup(group: string): Option<seq<int>> {
    if |group| >= 2 && group[0] == '[' && group[|group| - 1] == ']' then
      ParseNumerals(SplitAll(group[1..|group| - 1], ','))
    else None
  }

  function ParseGroups(groups: seq<string>): Option<seq<seq<int>>> {
    if groups == [] then Some([])
    else
      match (ParseGroup(groups[0]), ParseGroups(groups[1..]))
      case (Some(xs), Some(rest)) => Some([xs] + rest)
      case _ => None
  }

  /** Reads an output text back: the groups between the separating spaces,
      each stripped of its brackets and split at its commas. */
  function ParseOutput(text: string): Option<seq<seq<int>>> {
    if text == "" then Some([]) else ParseGroups(SplitAll(text, ' '))
  }

  predicate AllInt32(subsets: seq<seq<int>>) {
    forall i, j :: 0 <= i < |subsets| && 0 <= j < |subsets[i]| ==> IsInt32(subsets[i][j])
  }

  /** Reading the intended format back gives the same element sequences in
      the same order, provided no subset is empty (an empty subset would
      read back as one empty literal, which is not an integer). */
  lemma FormatRoundTrip(subsets: seq<seq<int>>)
    requires NoEmptySubset(subsets) && AllInt32(subsets)
    ensures ParseOutput(Format(subsets)) == Some(subsets)
  {
    if subsets != [] {
      FormatEnds(subsets);
      var groups := Groups(subsets);
      forall i | 0 <= i < |groups|
        ensures ' ' !in groups[i]
      {
        NumeralsAvoid(subsets[i], ' ');
      }
      SplitAllJoin(groups, ' ');
      GroupsRoundTrip(subsets);
    }
  }

  lemma {:induction false} GroupsRoundTrip(subsets: seq<seq<int>>)
    requires NoEmptySubset(subsets) && AllInt32(subsets)
    ensures ParseGroups(Groups(subsets)) == Some(subsets)
  {
    if subsets != [] {
      assert Groups(subsets)[1..] == Groups(subsets[1..]);
      GroupsRoundTrip(subsets[1..]);
      GroupRoundTrip(subsets[0]);
      assert [subsets[0]] + subsets[1..] == subsets;
    }
  }

  lemma GroupRoundTrip(xs: seq<int>)
    requires xs != [] && forall j :: 0 <= j < |xs| ==> IsInt32(xs[j])
    ensures ParseGroup(Bracketed(xs)) == Some(xs)
  {
    var body := Join(Numerals(xs), ',');
    var group := Bracketed(xs);
    assert group[1..|group| - 1] == body;
    NumeralsAvoid(xs, ',');
    SplitAllJoin(Numerals(xs), ',');
    NumeralsRoundTrip(xs);
  }

  lemma {:induction false} NumeralsRoundTrip(xs: seq<int>)
    requires forall j :: 0 <= j < |xs| ==> IsInt32(xs[j])
    ensures ParseNumerals(Numerals(xs)) == Some(xs)
  {
    if xs != [] {
      assert Numerals(xs)[1..] == Numerals(xs[1..]);
      NumeralsRoundTrip(xs[1..]);
      ParseIntToString(xs[0]);
      assert [xs[0]] + xs[1..] == xs;
    }
  }
}
