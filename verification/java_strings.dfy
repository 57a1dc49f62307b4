/** The `String` and `StringBuilder` operations the gateway uses, as functions
    on `seq<char>`: `trim`, `split` with a one-character pattern, and the
    `lastIndexOf` and `replace` of a string builder. */
module JavaStrings {
  import opened Wrappers
  import opened JavaLang

  /** Every character is one `String.trim` removes (code point at most U+0020). */
  predicate Blank(s: string) {
    forall k :: 0 <= k < |s| ==> s[k] <= ' '
  }

  /** Neither end of `s` is a character `String.trim` removes. */
  predicate Trimmed(s: string) {
    s == [] || (' ' < s[0] && ' ' < s[|s| - 1])
  }

  /** The number of blank characters at the front of `s`. */
  function LeadingBlanks(s: string): (n: nat)
    ensures n <= |s| && Blank(s[..n])
    ensures n < |s| ==> ' ' < s[n]
  {
    if s == [] || ' ' < s[0] then 0
    else
      var n := 1 + LeadingBlanks(s[1..]);
      assert s[..n] == [s[0]] + s[1..][..n - 1];
      n
  }

  /** The number of blank characters at the back of `s`. */
  function TrailingBlanks(s: string): (n: nat)
    ensures n <= |s| && Blank(s[|s| - n..])
    ensures n < |s| ==> ' ' < s[|s| - 1 - n]
  {
    if s == [] || ' ' < s[|s| - 1] then 0
    else
      var m := TrailingBlanks(s[..|s| - 1]);
      TrailingBlanksStep(s, m);
      m + 1
  }

  /** One more blank at the back of `s` than in front of its last character. */
  lemma TrailingBlanksStep(s: string, m: nat)
    requires s != [] && s[|s| - 1] <= ' '
    requires var init := s[..|s| - 1]; m <= |init| && Blank(init[|init| - m..])
    requires var init := s[..|s| - 1]; m < |init| ==> ' ' < init[|init| - 1 - m]
    ensures m + 1 <= |s| && Blank(s[|s| - (m + 1)..])
    ensures m + 1 < |s| ==> ' ' < s[|s| - 1 - (m + 1)]
  {
    var init := s[..|s| - 1];
    assert s[|s| - (m + 1)..] == init[|init| - m..] + [s[|s| - 1]];
  }

  /** `String.trim`: the slice of `s` left after removing the blank
      characters at both ends. */
  function Trim(s: string): string {
    var st := LeadingBlanks(s);
    s[st..|s| - TrailingBlanks(s[st..])]
  }

  /** What `Trim` keeps is trimmed, and `s` is that text with the leading
      blanks before it and only blank characters after it. */
  lemma TrimSlice(s: string)
    ensures Trimmed(Trim(s))
    ensures LeadingBlanks(s) + |Trim(s)| <= |s|
    ensures s == s[..LeadingBlanks(s)] + Trim(s) + s[LeadingBlanks(s) + |Trim(s)|..]
    ensures Blank(s[LeadingBlanks(s) + |Trim(s)|..])
  {
    var st := LeadingBlanks(s);
    var rest := s[st..];
    var tb := TrailingBlanks(rest);
    TailOfRest(s, st, tb);
    TrimBetween(s, st, tb, Trim(s));
  }

  /** The back of the rest after `st` characters is the back of `s`. */
  lemma TailOfRest(s: string, st: nat, tb: nat)
    requires st <= |s| && tb <= |s| - st
    requires var rest := s[st..]; Blank(rest[|rest| - tb..])
    requires var rest := s[st..]; tb < |rest| ==> ' ' < rest[|rest| - 1 - tb]
    ensures Blank(s[|s| - tb..])
    ensures st + tb < |s| ==> ' ' < s[|s| - 1 - tb]
  {
    assert s[st..][|s| - st - tb..] == s[|s| - tb..];
  }

  /** The text between `st` blanks at the front and `tb` blanks at the back,
      with a non-blank character at each of its ends. */
  lemma TrimBetween(s: string, st: nat, tb: nat, r: string)
    requires st + tb <= |s| && Blank(s[..st]) && Blank(s[|s| - tb..])
    requires st < |s| ==> ' ' < s[st]
    requires st + tb < |s| ==> ' ' < s[|s| - 1 - tb]
    requires r == s[st..|s| - tb]
    ensures Trimmed(r) && st + |r| <= |s| && Blank(s[st + |r|..])
    ensures s == s[..st] + r + s[st + |r|..]
  {
    assert st + |r| == |s| - tb;
    if r != [] {
      assert r[0] == s[st];
      assert r[|r| - 1] == s[|s| - 1 - tb];
    }
    assert s == s[..st] + s[st..|s| - tb] + s[|s| - tb..];
  }

  /** Trimming recovers a text from any blank padding around it, so the
      slice `Trim` returns is the only one its contract allows. */
  lemma TrimPadded(p: string, x: string, q: string)
    requires Blank(p) && Blank(q) && Trimmed(x)
    ensures Trim(p + x + q) == x
  {
    var s := p + x + q;
    if x == [] {
      assert Blank(s);
    } else {
      LeadingBlanksBefore(p, x + q);
      assert s == p + (x + q);
      assert s[|p|..] == x + q;
      TrailingBlanksAfter(x, q);
      assert (x + q)[..|x|] == x;
    }
  }

  /** Blank characters in front of a non-blank one are exactly the leading blanks. */
  lemma {:induction false} LeadingBlanksBefore(p: string, y: string)
    requires Blank(p) && y != [] && ' ' < y[0]
    ensures LeadingBlanks(p + y) == |p|
  {
    if p != [] {
      assert (p + y)[1..] == p[1..] + y;
      LeadingBlanksBefore(p[1..], y);
    }
  }

  /** Blank characters after a non-blank one are exactly the trailing blanks. */
  lemma {:induction false} TrailingBlanksAfter(y: string, q: string)
    requires Blank(q) && y != [] && ' ' < y[|y| - 1]
    ensures TrailingBlanks(y + q) == |q|
  {
    if q != [] {
      assert (y + q)[..|y + q| - 1] == y + q[..|q| - 1];
      TrailingBlanksAfter(y, q[..|q| - 1]);
    }
  }

  /** The parts joined with `sep` between consecutive parts. */
  function Join(parts: seq<string>, sep: char): string {
    if parts == [] then ""
    else if |parts| == 1 then parts[0]
    else parts[0] + [sep] + Join(parts[1..], sep)
  }

  /** Every piece between separators, empty ones included: one more piece
      than there are separators. */
  function SplitAll(s: string, sep: char): (parts: seq<string>)
    ensures |parts| >= 1
    ensures forall i :: 0 <= i < |parts| ==> sep !in parts[i]
    ensures Join(parts, sep) == s
  {
    if s == [] then [""]
    else
      var rest := SplitAll(s[1..], sep);
      if s[0] == sep then
        assert ([""] + rest)[1..] == rest;
        [""] + rest
      else
        var parts := [[s[0]] + rest[0]] + rest[1..];
        assert parts[1..] == rest[1..];
        parts
  }

  /** Drops the empty strings at the end, as `split` does with limit 0. */
  function DropTrailingEmpty(parts: seq<string>): (r: seq<string>)
    ensures |r| <= |parts| && r == parts[..|r|]
    ensures forall i :: |r| <= i < |parts| ==> parts[i] == ""
    ensures r == [] || r[|r| - 1] != ""
  {
    if parts != [] && parts[|parts| - 1] == "" then DropTrailingEmpty(parts[..|parts| - 1])
    else parts
  }

  /** `s.split(String.valueOf(sep))` for a separator that is not a regular
      expression metacharacter: a string without the separator is returned
      whole, otherwise the pieces between separators, less the empty pieces
      at the end. */
  function Split(s: string, sep: char): (parts: seq<string>)
    ensures forall i :: 0 <= i < |parts| ==> sep !in parts[i]
    ensures parts != [] && parts[|parts| - 1] == "" ==> s == ""
    ensures parts == [] ==> s != "" && forall k :: 0 <= k < |s| ==> s[k] == sep
  {
    if sep !in s then [s]
    else
      var all := SplitAll(s, sep);
      var parts := DropTrailingEmpty(all);
      if parts == [] then
        JoinOfEmpties(all, sep);
        parts
      else
        parts
  }

  /** Joining nothing but empty strings leaves only separators. */
  lemma {:induction false} JoinOfEmpties(parts: seq<string>, sep: char)
    requires forall i :: 0 <= i < |parts| ==> parts[i] == ""
    ensures forall k :: 0 <= k < |Join(parts, sep)| ==> Join(parts, sep)[k] == sep
  {
    if |parts| > 1 {
      JoinOfEmpties(parts[1..], sep);
    }
  }

  /** Appending one part to a join appends a separator and that part. */
  lemma {:induction false} JoinSnoc(parts: seq<string>, last: string, sep: char)
    requires parts != []
    ensures Join(parts + [last], sep) == Join(parts, sep) + [sep] + last
  {
    if |parts| > 1 {
      assert (parts + [last])[1..] == parts[1..] + [last];
      JoinSnoc(parts[1..], last, sep);
    } else {
      assert (parts + [last])[1..] == [last];
    }
  }

  /** A character that is neither the separator nor in any part is not in
      the join. */
  lemma {:induction false} JoinAvoids(parts: seq<string>, sep: char, c: char)
    requires c != sep
    requires forall i :: 0 <= i < |parts| ==> c !in parts[i]
    ensures c !in Join(parts, sep)
  {
    if |parts| > 1 {
      JoinAvoids(parts[1..], sep, c);
    }
  }

  /** A piece without the separator is split off whole. */
  lemma {:induction false} SplitAllLead(w: string, sep: char, t: string)
    requires sep !in w
    ensures SplitAll(w + [sep] + t, sep) == [w] + SplitAll(t, sep)
    ensures SplitAll(w, sep) == [w]
  {
    if w != [] {
      assert (w + [sep] + t)[1..] == w[1..] + [sep] + t;
      SplitAllLead(w[1..], sep, t);
      assert [w[0]] + w[1..] == w;
    }
  }

  /** Splitting undoes joining, when no part holds the separator. */
  lemma {:induction false} SplitAllJoin(parts: seq<string>, sep: char)
    requires parts != []
    requires forall i :: 0 <= i < |parts| ==> sep !in parts[i]
    ensures SplitAll(Join(parts, sep), sep) == parts
  {
    if |parts| == 1 {
      SplitAllLead(parts[0], sep, "");
    } else {
      SplitAllJoin(parts[1..], sep);
      SplitAllLead(parts[0], sep, Join(parts[1..], sep));
      assert [parts[0]] + parts[1..] == parts;
    }
  }

  /** `split` undoes joining when no part holds the separator and the last
      part is not an empty piece that `split` would drop. */
  lemma SplitJoin(parts: seq<string>, sep: char)
    requires parts != []
    requires forall i :: 0 <= i < |parts| ==> sep !in parts[i]
    requires |parts| == 1 || parts[|parts| - 1] != ""
    ensures Split(Join(parts, sep), sep) == parts
  {
    SplitAllJoin(parts, sep);
    if |parts| == 1 {
      assert Join(parts, sep) == parts[0];
    } else {
      assert Join(parts, sep)[|parts[0]|] == sep;
    }
  }

  /** A separator appended to a non-empty string changes nothing: `split`
      ignores trailing separators. */
  lemma SplitIgnoresTrailingSeparator(s: string, sep: char)
    requires s != ""
    ensures Split(s + [sep], sep) == Split(s, sep)
  {
    var parts := SplitAll(s, sep);
    SplitAllAppend(s, sep);
    assert DropTrailingEmpty(parts + [""]) == DropTrailingEmpty(parts) by {
      assert (parts + [""])[..|parts|] == parts;
    }
    if sep !in s {
      assert parts == [s] by {
        SplitAllLead(s, sep, "");
      }
    }
    assert (s + [sep])[|s|] == sep;
  }

  /** Appending a separator adds one empty piece at the end. */
  lemma {:induction false} SplitAllAppend(s: string, sep: char)
    ensures SplitAll(s + [sep], sep) == SplitAll(s, sep) + [""]
  {
    if s == [] {
      assert ([] + [sep])[1..] == [];
    } else {
      assert (s + [sep])[1..] == s[1..] + [sep];
      SplitAllAppend(s[1..], sep);
    }
  }

  /** The index of the last occurrence of `c` in `s`, or -1 (what
      `lastIndexOf` returns for a one-character argument). */
  function LastIndexOf(s: string, c: char): (i: int)
    ensures -1 <= i < |s|
    ensures 0 <= i ==> s[i] == c
    ensures forall k :: i < k < |s| ==> s[k] != c
  {
    if s == [] then -1
    else if s[|s| - 1] == c then |s| - 1
    else LastIndexOf(s[..|s| - 1], c)
  }

  /** `StringBuilder.replace(start, end, str)`: an `end` past the length is
      cut back to the length; a negative `start`, or one beyond the length or
      beyond `end`, throws `StringIndexOutOfBoundsException`. */
  function Replace(s: string, start: int, end: int, str: string): (r: Result<string, Exception>)
    ensures r.Ok? <==> 0 <= start <= |s| && start <= end
    ensures r.Ok? ==> |r.value| == start + |str| + |s| - (if end < |s| then end else |s|)
    ensures r.Ok? ==> var stop := if end < |s| then end else |s|;
                      r.value[..start] == s[..start] && r.value[start..start + |str|] == str
                      && r.value[start + |str|..] == s[stop..]
  {
    var stop := if end > |s| then |s| else end;
    if start < 0 || start > stop then Err(StringIndexOutOfBoundsException(start, stop, |s|))
    else
      var r := s[..start] + str + s[stop..];
      assert r[start..start + |str|] == str;
      Ok(r)
  }
}
