/** The gateway's reading of its two raw inputs: the list is split at commas,
    each piece trimmed and read with `Integer.valueOf`, and the values
    collected into a set; the total is read with `Integer.valueOf` as it is,
    without trimming. */
module FormParsing {
  import opened Wrappers
  import opened JavaLang
  import opened JavaStrings

  /** One list piece, trimmed and read with `Integer.valueOf`. */
  function ReadAddend(token: string): Result<int, Exception> {
    var literal := Trim(token);
    match ParseInt(literal)
    case Some(v) => Ok(v)
    case None => Err(NumberFormatException(literal))
  }

  /** A stream that maps every piece through `read` and collects the values
      into a set: the first piece `read` fails on throws. */
  function CollectToSet(tokens: seq<string>, read: string -> Result<int, Exception>): Result<set<int>, Exception> {
    if tokens == [] then Ok({})
    else
      var v :- read(tokens[0]);
      var values :- CollectToSet(tokens[1..], read);
      Ok({v} + values)
  }

  /** Collecting succeeds exactly when every piece reads; the set then holds
      exactly the values read, and otherwise the error is that of the first
      piece that does not read. */
  lemma {:induction false} CollectToSetMeaning(tokens: seq<string>, read: string -> Result<int, Exception>)
    ensures CollectToSet(tokens, read).Ok? <==> forall i :: 0 <= i < |tokens| ==> read(tokens[i]).Ok?
    ensures CollectToSet(tokens, read).Ok? ==>
              forall x :: x in CollectToSet(tokens, read).value <==> exists i :: 0 <= i < |tokens| && read(tokens[i]) == Ok(x)
    ensures CollectToSet(tokens, read).Err? ==>
              exists i :: 0 <= i < |tokens| && read(tokens[i]) == Err(CollectToSet(tokens, read).error)
                          && forall j :: 0 <= j < i ==> read(tokens[j]).Ok?
  {
    if tokens != [] {
      CollectToSetMeaning(tokens[1..], read);
      assert forall i :: 1 <= i < |tokens| ==> tokens[1..][i - 1] == tokens[i];
      if read(tokens[0]).Ok? && CollectToSet(tokens[1..], read).Err? {
        var e := CollectToSet(tokens[1..], read).error;
        var k :| 0 <= k < |tokens| - 1 && read(tokens[1..][k]) == Err(e)
                 && forall j :: 0 <= j < k ==> read(tokens[1..][j]).Ok?;
        assert read(tokens[k + 1]) == Err(e);
        assert forall j :: 0 <= j < k + 1 ==> read(tokens[j]).Ok?;
      }
    }
  }

  /** `map(String::trim).map(Integer::valueOf).collect(toSet())` */
  function ParseAddends(tokens: seq<string>): Result<set<int>, Exception> {
    CollectToSet(tokens, ReadAddend)
  }

  /** The addend set read from the raw list string. */
  function ParseList(list: string): Result<set<int>, Exception> {
    ParseAddends(Split(list, ','))
  }

  /** The list reads exactly when every comma-separated piece reads; the
      addend set then holds exactly the values of the pieces, duplicates
      collapsed, and otherwise the first piece that does not read throws. */
  lemma ParsedList(list: string)
    ensures var pieces := Split(list, ',');
            ParseList(list).Ok? <==> forall i :: 0 <= i < |pieces| ==> ReadAddend(pieces[i]).Ok?
    ensures var pieces := Split(list, ',');
            ParseList(list).Ok? ==>
              forall x :: x in ParseList(list).value <==> exists i :: 0 <= i < |pieces| && ReadAddend(pieces[i]) == Ok(x)
    ensures var pieces := Split(list, ',');
            ParseList(list).Err? ==>
              exists i :: 0 <= i < |pieces| && ReadAddend(pieces[i]) == Err(ParseList(list).error)
                          && forall j :: 0 <= j < i ==> ReadAddend(pieces[j]).Ok?
  {
    var pieces := Split(list, ',');
    assert ParseList(list) == CollectToSet(pieces, ReadAddend);
    CollectToSetMeaning(pieces, ReadAddend);
  }

  /** The sum read from the raw total string. */
  function ParseTotal(total: string): (r: Result<int, Exception>)
    ensures r.Ok? ==> IsInt32(r.value)
  {
    match ParseInt(total)
    case Some(v) => Ok(v)
    case None => Err(NumberFormatException(total))
  }

  /** A total that is an optional sign and digits reads as their value when
      it fits in an `int`, and otherwise throws with the raw total. */
  lemma TotalLiteral(sign: string, digits: string)
    requires sign == "" || sign == "+" || sign == "-"
    requires digits != [] && AllDigits(digits)
    ensures ParseTotal(sign + digits)
            == if IsInt32(SignedValue(sign, digits)) then Ok(SignedValue(sign, digits))
               else Err(NumberFormatException(sign + digits))
  {
    if IsInt32(SignedValue(sign, digits)) {
      ParseIntAccepts(sign, digits);
    } else {
      ParseIntRejectsOutOfRange(sign, digits);
    }
  }

  /** A total that reads is an optional sign and digits, untrimmed, and
      reads as their value; one that does not throws `NumberFormatException`
      of the raw string. */
  lemma TotalRead(total: string)
    ensures ParseTotal(total).Ok? ==>
              var sign := if total[0] == '-' || total[0] == '+' then total[..1] else "";
              var digits := total[|sign|..];
              && total == sign + digits
              && (sign == "" || sign == "+" || sign == "-")
              && digits != [] && AllDigits(digits)
              && ParseTotal(total).value == SignedValue(sign, digits)
    ensures ParseTotal(total).Err? ==> ParseTotal(total).error == NumberFormatException(total)
  {
    if ParseTotal(total).Ok? {
      ParseIntDecomposes(total);
    }
  }

  /** A total with a blank character anywhere, padding included, throws. */
  lemma PaddedTotalRejected(total: string, k: int)
    requires 0 <= k < |total| && total[k] <= ' '
    ensures ParseTotal(total) == Err(NumberFormatException(total))
  {
    ParseIntRejectsBlank(total, k);
  }

  /** Pieces that trim to the same literals read as the same set, so blank
      padding around list literals is ignored. */
  lemma PaddingIgnored(a: seq<string>, b: seq<string>)
    requires |a| == |b| && forall i :: 0 <= i < |a| ==> Trim(a[i]) == Trim(b[i])
    ensures ParseAddends(a) == ParseAddends(b)
  {
    forall i | 0 <= i < |a|
      ensures ReadAddend(a[i]) == ReadAddend(b[i])
    {
      assert Trim(a[i]) == Trim(b[i]);
    }
    CollectSameReads(a, b, ReadAddend);
  }

  /** Pieces that read alike one by one collect alike. */
  lemma {:induction false} CollectSameReads(a: seq<string>, b: seq<string>, read: string -> Result<int, Exception>)
    requires |a| == |b| && forall i :: 0 <= i < |a| ==> read(a[i]) == read(b[i])
    ensures CollectToSet(a, read) == CollectToSet(b, read)
  {
    if a != [] {
      assert read(a[0]) == read(b[0]);
      assert forall i :: 0 <= i < |a| - 1 ==> a[1..][i] == a[i + 1] && b[1..][i] == b[i + 1];
      CollectSameReads(a[1..], b[1..], read);
    }
  }

  /** A text that is blank padding and then one digit reads as that digit. */
  lemma ReadDigit(s: string, pad: string, d: nat)
    requires Blank(pad) && d < 10 && s == pad + [DigitChar(d)]
    ensures ReadAddend(s) == Ok(d)
  {
    var literal := [DigitChar(d)];
    assert pad + literal + "" == s;
    TrimPadded(pad, literal, "");
    assert literal[..0] == [];
    assert DigitsValue(literal) == d;
    assert ParseInt(literal) == Some(d);
  }

  /** A separator at the end of a non-empty list is ignored. */
  lemma TrailingCommaIgnored(list: string)
    requires list != ""
    ensures ParseList(list + ",") == ParseList(list)
  {
    SplitIgnoresTrailingSeparator(list, ',');
  }

  /** The empty list string is one empty piece, which does not read as an
      `int`. */
  lemma EmptyListRejected()
    ensures ParseList("") == Err(NumberFormatException(""))
  {
    assert Split("", ',') == [""];
    assert Trim("") == "";
  }

  /** An empty piece between two commas throws too. */
  lemma EmptyMiddleTokenRejected()
    ensures ParseList("1,,2") == Err(NumberFormatException(""))
  {
    SplitThree("1", "", "2", "1,,2");
    ReadDigits12();
    ReadEmpty();
    CollectStopsAtSecond(ReadAddend, "1", "", "2", NumberFormatException(""));
  }

  /** An empty piece trims to the empty literal, which does not read. */
  lemma ReadEmpty()
    ensures ReadAddend("") == Err(NumberFormatException(""))
  {
    assert Trim("") == "";
  }

  /** Collecting stops at a second piece that does not read. */
  lemma CollectStopsAtSecond(read: string -> Result<int, Exception>, a: string, b: string, c: string, e: Exception)
    requires read(a).Ok? && read(b) == Err(e)
    ensures CollectToSet([a, b, c], read) == Err(e)
  {
    assert [a, b, c][1..] == [b, c];
  }

  /** A list of nothing but commas splits into no pieces and reads as the
      empty set. */
  lemma SeparatorsOnlyGiveEmptySet()
    ensures ParseList(",") == Ok({})
  {
    SplitSeparatorOnly();
  }

  /** A lone comma splits into two empty pieces, both dropped. */
  lemma SplitSeparatorOnly()
    ensures Split(",", ',') == []
  {
    assert ([] + [','])[1..] == [];
    assert SplitAll(",", ',') == ["", ""];
  }

  /** Repeated literals collapse into one element. */
  lemma DuplicateLiteralsCollapse()
    ensures ParseList("1,1,2") == Ok({1, 2})
  {
    SplitDuplicates();
    ReadDuplicates();
  }

  lemma SplitDuplicates()
    ensures Split("1,1,2", ',') == ["1", "1", "2"]
  {
    SplitThree("1", "1", "2", "1,1,2");
  }

  lemma ReadDuplicates()
    ensures ParseAddends(["1", "1", "2"]) == Ok({1, 2})
  {
    ReadDigits12();
    CollectDuplicates(ReadAddend);
  }

  lemma CollectDuplicates(read: string -> Result<int, Exception>)
    requires read("1") == Ok(1) && read("2") == Ok(2)
    ensures CollectToSet(["1", "1", "2"], read) == Ok({1, 2})
  {
    CollectThree(["1", "1", "2"], read);
    assert {1, 1, 2} == {1, 2};
  }

  // The example lemmas below state one literal fact each, so that no proof
  // has to unfold the parser on more than a few literal strings at once.
  lemma ReadDigits12()
    ensures ReadAddend("1") == Ok(1) && ReadAddend("2") == Ok(2)
  {
    assert DigitChar(1) == '1' && DigitChar(2) == '2';
    ReadDigit("1", "", 1);
    ReadDigit("2", "", 2);
  }

  /** `"2,3,5"` and `"2, 3, 5"` read as the same set. */
  lemma SpacedListSameSet()
    ensures ParseList("2,3,5") == ParseList("2, 3, 5") == Ok({2, 3, 5})
  {
    SplitTightAndSpaced();
    ReadTightAndSpaced();
  }

  lemma SplitTightAndSpaced()
    ensures Split("2,3,5", ',') == ["2", "3", "5"]
    ensures Split("2, 3, 5", ',') == ["2", " 3", " 5"]
  {
    SplitTight();
    SplitSpaced();
  }

  lemma SplitTight()
    ensures Split("2,3,5", ',') == ["2", "3", "5"]
  {
    SplitThree("2", "3", "5", "2,3,5");
  }

  lemma SplitSpaced()
    ensures Split("2, 3, 5", ',') == ["2", " 3", " 5"]
  {
    SplitThree("2", " 3", " 5", "2, 3, 5");
  }

  lemma ReadTightAndSpaced()
    ensures ParseAddends(["2", "3", "5"]) == Ok({2, 3, 5})
    ensures ParseAddends(["2", " 3", " 5"]) == Ok({2, 3, 5})
  {
    ReadDigits12();
    ReadDigits35();
    ReadPadded35();
    CollectTwoThreeFive(ReadAddend, "2", "3", "5");
    CollectTwoThreeFive(ReadAddend, "2", " 3", " 5");
  }

  lemma CollectTwoThreeFive(read: string -> Result<int, Exception>, a: string, b: string, c: string)
    requires read(a) == Ok(2) && read(b) == Ok(3) && read(c) == Ok(5)
    ensures CollectToSet([a, b, c], read) == Ok({2, 3, 5})
  {
    CollectThree([a, b, c], read);
  }

  lemma ReadDigits35()
    ensures ReadAddend("3") == Ok(3) && ReadAddend("5") == Ok(5)
  {
    assert DigitChar(3) == '3' && DigitChar(5) == '5';
    ReadDigit("3", "", 3);
    ReadDigit("5", "", 5);
  }

  lemma ReadPadded35()
    ensures ReadAddend(" 3") == Ok(3) && ReadAddend(" 5") == Ok(5)
  {
    ReadPadded3();
    ReadPadded5();
  }

  lemma ReadPadded3()
    ensures ReadAddend(" 3") == Ok(3)
  {
    assert DigitChar(3) == '3';
    ReadDigit(" 3", " ", 3);
  }

  lemma ReadPadded5()
    ensures ReadAddend(" 5") == Ok(5)
  {
    assert DigitChar(5) == '5';
    ReadDigit(" 5", " ", 5);
  }

  /** Three comma-free pieces, the last non-empty, split back apart. */
  lemma SplitThree(a: string, b: string, c: string, s: string)
    requires ',' !in a && ',' !in b && ',' !in c && c != ""
    requires s == a + [','] + b + [','] + c
    ensures Split(s, ',') == [a, b, c]
  {
    var parts := [a, b, c];
    assert parts[1..] == [b, c] && parts[1..][1..] == [c];
    assert Join([c], ',') == c;
    assert Join([b, c], ',') == b + [','] + c;
    assert Join(parts, ',') == a + [','] + (b + [','] + c);
    assert a + [','] + (b + [','] + c) == s;
    SplitJoin(parts, ',');
  }

  /** Collecting three pieces that all read. */
  lemma CollectThree(tokens: seq<string>, read: string -> Result<int, Exception>)
    requires |tokens| == 3 && read(tokens[0]).Ok? && read(tokens[1]).Ok? && read(tokens[2]).Ok?
    ensures CollectToSet(tokens, read) == Ok({read(tokens[0]).value, read(tokens[1]).value, read(tokens[2]).value})
  {
    var v0, v1, v2 := read(tokens[0]).value, read(tokens[1]).value, read(tokens[2]).value;
    assert tokens[1..][1..][1..] == [];
    assert CollectToSet(tokens[1..][1..][1..], read) == Ok({});
    assert CollectToSet(tokens[1..][1..], read) == Ok({v2} + {});
    assert CollectToSet(tokens[1..], read) == Ok({v1} + ({v2} + {}));
    assert CollectToSet(tokens, read) == Ok({v0} + ({v1} + ({v2} + {})));
    assert {v0} + ({v1} + ({v2} + {})) == {v0, v1, v2};
  }
}
