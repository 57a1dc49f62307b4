/** `java.lang.StringBuilder`, reduced to the operations the serializer calls:
    its characters are a field that the methods update in place. */
module StringBuilders {
  import opened Wrappers
  import opened JavaLang
  import JavaStrings

  class StringBuilder {
    var chars: string

    constructor ()
      ensures chars == ""
    {
      chars := "";
    }

    /** `append(s)` */
    method Append(s: string)
      modifies this
      ensures chars == old(chars) + s
    {
      chars := chars + s;
    }

    /** `lastIndexOf(String.valueOf(c))`: scans from the end. */
    method LastIndexOf(c: char) returns (index: int)
      ensures index == JavaStrings.LastIndexOf(chars, c)
    {
      index := |chars| - 1;
      while 0 <= index && chars[index] != c
        invariant -1 <= index < |chars|
        invariant JavaStrings.LastIndexOf(chars, c) == JavaStrings.LastIndexOf(chars[..index + 1], c)
      {
        assert chars[..index + 1][..index] == chars[..index];
        index := index - 1;
      }
    }

    /** `replace(start, end, str)`; `Some(e)` when it throws `e`, leaving the
        characters as they were. */
    method Replace(start: int, end: int, str: string) returns (thrown: Option<Exception>)
      modifies this
      ensures match JavaStrings.Replace(old(chars), start, end, str)
              case Ok(s) => thrown == None && chars == s
              case Err(e) => thrown == Some(e) && chars == old(chars)
    {
      match JavaStrings.Replace(chars, start, end, str)
      case Ok(s) =>
        chars := s;
        thrown := None;
      case Err(e) =>
        thrown := Some(e);
    }

    /** `toString()` */
    function ToString(): string
      reads this
    {
      chars
    }
  }
}
