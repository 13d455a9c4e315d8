/** Whole-string ASCII case mapping, as `std::transform(..., ::tolower)`
    and `::toupper` leave a string. */
module CaseMap {
  import opened CharClass

  function Lower(s: seq<char>): (r: seq<char>)
    ensures |r| == |s|
    ensures forall i :: 0 <= i < |s| ==> r[i] == ToLowerChar(s[i])
  {
    seq(|s|, i requires 0 <= i < |s| => ToLowerChar(s[i]))
  }

  function Upper(s: seq<char>): (r: seq<char>)
    ensures |r| == |s|
    ensures forall i :: 0 <= i < |s| ==> r[i] == ToUpperChar(s[i])
  {
    seq(|s|, i requires 0 <= i < |s| => ToUpperChar(s[i]))
  }

  /** Lowering keeps the length, leaves no upper-case letter, changes nothing
      but upper-case letters, and a second lowering changes nothing. */
  lemma {:induction false} LowerProperties(s: seq<char>)
    ensures |Lower(s)| == |s|
    ensures forall i :: 0 <= i < |s| ==> !IsUpper(Lower(s)[i])
    ensures forall i :: 0 <= i < |s| && !IsUpper(s[i]) ==> Lower(s)[i] == s[i]
    ensures Lower(Lower(s)) == Lower(s)
  {
  }

  /** Raising keeps the length, leaves no lower-case letter, changes nothing
      but lower-case letters, and a second raising changes nothing. */
  lemma {:induction false} UpperProperties(s: seq<char>)
    ensures |Upper(s)| == |s|
    ensures forall i :: 0 <= i < |s| ==> !IsLower(Upper(s)[i])
    ensures forall i :: 0 <= i < |s| && !IsLower(s[i]) ==> Upper(s)[i] == s[i]
    ensures Upper(Upper(s)) == Upper(s)
  {
  }

  /** Case-insensitive equality does not depend on a prior case mapping. */
  lemma {:induction false} LowerOfUpper(s: seq<char>)
    ensures Lower(Upper(s)) == Lower(s)
  {
  }

  /** Letters map to their partners of the other case; spaces and other
      characters stay. */
  lemma {:induction false} CaseExamples()
    ensures Lower("Hello World") == "hello world"
    ensures Upper("hello world") == "HELLO WORLD"
    ensures Upper("A") == "A" && Lower("A") == "a"
  {
  }
}
