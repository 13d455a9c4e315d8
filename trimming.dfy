/** Whitespace trimming as both ByteArray classes do it, through
    find_first_not_of and find_last_not_of over " \t\n\r\f\v". */
module Trimming {
  import opened Wrappers
  import opened CharClass

  predicate AllSpace(s: seq<char>) {
    forall k :: 0 <= k < |s| ==> IsSpace(s[k])
  }

  /** Every character of s at an index in [i, j) is whitespace. */
  predicate SpacesIn(s: seq<char>, i: nat, j: nat)
    requires i <= j <= |s|
  {
    forall k :: i <= k < j ==> IsSpace(s[k])
  }

  /** s.find_first_not_of(" \t\n\r\f\v", from). */
  function FirstNotSpace(s: seq<char>, from: nat): (r: Option<nat>)
    ensures r.Some? ==> from <= r.value < |s| && !IsSpace(s[r.value]) && SpacesIn(s, from, r.value)
    ensures r.None? ==> from >= |s| || SpacesIn(s, from, |s|)
    decreases |s| - from
  {
    if from >= |s| then None
    else if !IsSpace(s[from]) then Some(from)
    else FirstNotSpace(s, from + 1)
  }

  /** s.find_last_not_of(" \t\n\r\f\v") over the first n characters. */
  function LastNotSpace(s: seq<char>, n: nat): (r: Option<nat>)
    requires n <= |s|
    ensures r.Some? ==> r.value < n && !IsSpace(s[r.value]) && SpacesIn(s, r.value + 1, n)
    ensures r.None? ==> SpacesIn(s, 0, n)
  {
    if n == 0 then None
    else if !IsSpace(s[n - 1]) then Some(n - 1)
    else LastNotSpace(s, n - 1)
  }

  /** trimLeft: substr(find_first_not_of(...)), or clear() when the string
      has only whitespace. */
  function TrimLeft(s: seq<char>): (r: seq<char>)
    ensures |r| <= |s| && r == s[|s| - |r|..]
    ensures SpacesIn(s, 0, |s| - |r|)
    ensures r == [] || !IsSpace(r[0])
  {
    match FirstNotSpace(s, 0)
    case Some(i) => s[i..]
    case None => []
  }

  /** trimRight: substr(0, find_last_not_of(...) + 1), or clear(). */
  function TrimRight(s: seq<char>): (r: seq<char>)
    ensures |r| <= |s| && r == s[..|r|]
    ensures SpacesIn(s, |r|, |s|)
    ensures r == [] || !IsSpace(r[|r| - 1])
  {
    match LastNotSpace(s, |s|)
    case Some(j) => s[..j + 1]
    case None => []
  }

  /** ByteArray::trim in the std::string-derived class: trimLeft, then
      trimRight. */
  function Trim(s: seq<char>): seq<char> {
    TrimRight(TrimLeft(s))
  }

  /** The trimmed string sits in s at offset `lead` with only whitespace
      before and after it. */
  predicate TrimmedAt(s: seq<char>, r: seq<char>, lead: nat) {
    lead + |r| <= |s| && s[lead..lead + |r|] == r
    && SpacesIn(s, 0, lead) && SpacesIn(s, lead + |r|, |s|)
  }

  /** Trim removes exactly the leading and trailing whitespace: what remains
      is a block of s with whitespace only around it, and it neither starts
      nor ends with whitespace; it is empty exactly when s is all whitespace. */
  lemma {:induction false} TrimStripsExactly(s: seq<char>)
    ensures exists lead: nat :: TrimmedAt(s, Trim(s), lead)
    ensures Trim(s) == [] || (!IsSpace(Trim(s)[0]) && !IsSpace(Trim(s)[|Trim(s)| - 1]))
    ensures Trim(s) == [] <==> AllSpace(s)
  {
    var l := TrimLeft(s);
    var r := Trim(s);
    var lead := |s| - |l|;
    assert forall k :: 0 <= k < |l| ==> l[k] == s[lead + k];
    assert s[lead..lead + |r|] == r;
    assert TrimmedAt(s, r, lead);
    if r != [] {
      assert r[0] == l[0];
    }
  }

  /** Trimming a trimmed string changes nothing. */
  lemma {:induction false} TrimIdempotent(s: seq<char>)
    ensures Trim(Trim(s)) == Trim(s)
  {
    var r := Trim(s);
    TrimStripsExactly(s);
    TrimNoOp(r);
  }

  /** A string that neither starts nor ends with whitespace is its own trim. */
  lemma {:induction false} TrimNoOp(r: seq<char>)
    requires r == [] || (!IsSpace(r[0]) && !IsSpace(r[|r| - 1]))
    ensures Trim(r) == r
  {
    if r != [] {
      assert FirstNotSpace(r, 0) == Some(0);
      assert LastNotSpace(r, |r|) == Some(|r| - 1);
    }
  }

  /** ByteArray::trim in the capability class: one substr between
      find_first_not_of and find_last_not_of, or empty when there is none. */
  function TrimOnce(s: seq<char>): seq<char> {
    match FirstNotSpace(s, 0)
    case None => []
    case Some(a) =>
      match LastNotSpace(s, |s|)
      case None => []
      case Some(b) => if a <= b then s[a..b + 1] else []
  }

  /** The two classes trim alike: the capability class's single substr equals
      the std::string-derived class's trimLeft-then-trimRight. */
  lemma {:induction false} TrimImplementationsAgree(s: seq<char>)
    ensures TrimOnce(s) == Trim(s)
  {
    match FirstNotSpace(s, 0)
    case None =>
    case Some(a) =>
      LastNotSpaceAtLeast(s, |s|, a);
      var b := LastNotSpace(s, |s|).value;
      assert TrimOnce(s) == s[a..b + 1];
      TrimBetween(s, a, b);
  }

  /** Trim keeps exactly the block between the first and the last
      non-space character. */
  lemma {:induction false} TrimBetween(s: seq<char>, a: nat, b: nat)
    requires FirstNotSpace(s, 0) == Some(a) && LastNotSpace(s, |s|) == Some(b) && a <= b
    ensures Trim(s) == s[a..b + 1]
  {
    var l := s[a..];
    assert TrimLeft(s) == l;
    LastNotSpaceShift(s, a, b);
    TrimRightAt(l, b - a);
    assert l[..b - a + 1] == s[a..b + 1];
  }

  lemma {:induction false} TrimRightAt(s: seq<char>, b: nat)
    requires LastNotSpace(s, |s|) == Some(b)
    ensures TrimRight(s) == s[..b + 1]
  {
  }

  /** A non-space character at index a bounds the last one from below. */
  lemma {:induction false} LastNotSpaceAtLeast(s: seq<char>, n: nat, a: nat)
    requires a < n <= |s| && !IsSpace(s[a])
    ensures LastNotSpace(s, n).Some? && LastNotSpace(s, n).value >= a
    decreases n
  {
    if IsSpace(s[n - 1]) {
      LastNotSpaceAtLeast(s, n - 1, a);
    }
  }

  /** Dropping a prefix that ends at or before the last non-space character
      shifts that character's index by the prefix length. */
  lemma {:induction false} LastNotSpaceShift(s: seq<char>, a: nat, b: nat)
    requires a <= b && LastNotSpace(s, |s|) == Some(b)
    ensures LastNotSpace(s[a..], |s| - a) == Some(b - a)
  {
    var l := s[a..];
    assert forall k :: 0 <= k < |l| ==> l[k] == s[a + k];
    LastNotSpaceAtLeast(l, |l|, b - a);
  }
}
