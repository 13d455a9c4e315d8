/** The std::string operations both ByteArray classes are built on:
    find, rfind, substr, insert, erase and compare. Positions are `nat`;
    the value `npos` that find and rfind return when nothing is found is
    `None`, and `npos` passed as a length is the constant NPOS. */
module StdString {
  import opened Wrappers

  /** std::string::npos, the largest size_t on a 64-bit platform. */
  const NPOS: nat := 0xFFFF_FFFF_FFFF_FFFF

  /** t occurs in s starting at position i. */
  predicate MatchAt(s: seq<char>, t: seq<char>, i: nat) {
    i + |t| <= |s| && s[i..i + |t|] == t
  }

  /** A one-character pattern matches exactly where that character is. */
  lemma {:induction false} MatchAtChar(s: seq<char>, c: char, j: nat)
    ensures MatchAt(s, [c], j) <==> j < |s| && s[j] == c
  {
    if j < |s| {
      assert s[j..j + 1] == [s[j]];
    }
  }

  /** t occurs somewhere in s. */
  predicate Occurs(s: seq<char>, t: seq<char>) {
    exists i: nat :: i <= |s| && MatchAt(s, t, i)
  }

  /** s.find(t, from): the first position at or after `from` where t occurs.
      An empty t is found at `from` itself whenever from <= |s|. That no
      earlier position matches is FindFirst. */
  function Find(s: seq<char>, t: seq<char>, from: nat): (r: Option<nat>)
    ensures r.Some? ==> from <= r.value && MatchAt(s, t, r.value)
    decreases |s| - from
  {
    if from + |t| > |s| then None
    else if s[from..from + |t|] == t then Some(from)
    else Find(s, t, from + 1)
  }

  /** s.rfind(t, from): the last position at or before `from` where t
      occurs; `from` is npos for the whole string. That no later position
      matches is RFindLast. */
  function RFind(s: seq<char>, t: seq<char>, from: nat): (r: Option<nat>)
    ensures r.Some? ==> r.value <= from && MatchAt(s, t, r.value)
  {
    if |t| > |s| then None else RFindDown(s, t, Min(from, |s| - |t|))
  }

  function RFindDown(s: seq<char>, t: seq<char>, i: nat): (r: Option<nat>)
    requires i + |t| <= |s|
    ensures r.Some? ==> r.value <= i && MatchAt(s, t, r.value)
  {
    if s[i..i + |t|] == t then Some(i)
    else if i == 0 then None
    else RFindDown(s, t, i - 1)
  }

  /** find returns the first match: none lies between `from` and the
      result, and none at all at or after `from` when it returns npos. */
  lemma {:induction false} FindFirst(s: seq<char>, t: seq<char>, from: nat)
    ensures Find(s, t, from).Some? ==> forall j: nat :: from <= j < Find(s, t, from).value ==> !MatchAt(s, t, j)
    ensures Find(s, t, from).None? ==> forall j: nat :: from <= j ==> !MatchAt(s, t, j)
    decreases |s| - from
  {
    if from + |t| <= |s| && s[from..from + |t|] != t {
      FindFirst(s, t, from + 1);
    }
  }

  /** rfind returns the last match: none lies between the result and
      `from`, and none at all up to `from` when it returns npos. */
  lemma {:induction false} RFindLast(s: seq<char>, t: seq<char>, from: nat)
    ensures RFind(s, t, from).Some? ==> forall j: nat :: RFind(s, t, from).value < j <= from ==> !MatchAt(s, t, j)
    ensures RFind(s, t, from).None? ==> forall j: nat :: j <= from ==> !MatchAt(s, t, j)
  {
    if |t| <= |s| {
      RFindDownLast(s, t, Min(from, |s| - |t|));
    }
  }

  lemma {:induction false} RFindDownLast(s: seq<char>, t: seq<char>, i: nat)
    requires i + |t| <= |s|
    ensures RFindDown(s, t, i).Some? ==> forall j: nat :: RFindDown(s, t, i).value < j <= i ==> !MatchAt(s, t, j)
    ensures RFindDown(s, t, i).None? ==> forall j: nat :: j <= i ==> !MatchAt(s, t, j)
  {
    if s[i..i + |t|] != t && i > 0 {
      RFindDownLast(s, t, i - 1);
    }
  }

  /** Searching from `from` finds the same position as searching the
      suffix s[from..] from its start. */
  lemma {:induction false} MatchInSuffix(s: seq<char>, t: seq<char>, from: nat, j: nat)
    requires from <= j && from <= |s|
    ensures MatchAt(s, t, j) <==> MatchAt(s[from..], t, j - from)
  {
    if j + |t| <= |s| {
      assert s[from..][j - from..j - from + |t|] == s[j..j + |t|];
    }
  }

  lemma {:induction false} FindInSuffix(s: seq<char>, t: seq<char>, from: nat)
    requires from <= |s|
    ensures Find(s, t, from) == (match Find(s[from..], t, 0)
                                 case None => None
                                 case Some(k) => Some(from + k))
  {
    var a := Find(s, t, from);
    var b := Find(s[from..], t, 0);
    FindFirst(s, t, from);
    FindFirst(s[from..], t, 0);
    if b.Some? {
      MatchInSuffix(s, t, from, from + b.value);
      if a.Some? && a.value < from + b.value {
        MatchInSuffix(s, t, from, a.value);
      }
    }
    if a.Some? {
      MatchInSuffix(s, t, from, a.value);
    }
  }

  /** s.substr(pos, len): at most len characters from pos (throws when
      pos > |s|, so callers check that first). */
  function Substr(s: seq<char>, pos: nat, len: nat): (r: seq<char>)
    requires pos <= |s|
    ensures |r| == Min(len, |s| - pos)
    ensures r == s[pos..pos + |r|]
  {
    s[pos..pos + Min(len, |s| - pos)]
  }

  /** s.insert(pos, t), for pos <= |s|. */
  function InsertAt(s: seq<char>, pos: nat, t: seq<char>): (r: seq<char>)
    requires pos <= |s|
    ensures |r| == |s| + |t|
    ensures r[..pos] == s[..pos] && r[pos..pos + |t|] == t && r[pos + |t|..] == s[pos..]
  {
    s[..pos] + t + s[pos..]
  }

  /** s.erase(pos, len), for pos <= |s|: removes at most len characters. */
  function Erase(s: seq<char>, pos: nat, len: nat): (r: seq<char>)
    requires pos <= |s|
    ensures |r| == |s| - Min(len, |s| - pos)
    ensures r[..pos] == s[..pos] && r[pos..] == s[pos + Min(len, |s| - pos)..]
  {
    s[..pos] + s[pos + Min(len, |s| - pos)..]
  }

  /** Erasing what was just inserted gives back the original string. */
  lemma {:induction false} EraseUndoesInsert(s: seq<char>, pos: nat, t: seq<char>)
    requires pos <= |s|
    ensures Erase(InsertAt(s, pos, t), pos, |t|) == s
  {
    var u := InsertAt(s, pos, t);
    assert Erase(u, pos, |t|) == u[..pos] + u[pos + |t|..];
  }

  /** std::string::compare as its sign: negative, zero or positive, by
      lexicographic order of the characters, a proper prefix being smaller. */
  function Compare(a: seq<char>, b: seq<char>): (r: int)
    ensures -1 <= r <= 1
    ensures r == 0 <==> a == b
    decreases |a|
  {
    if a == [] && b == [] then 0
    else if a == [] then -1
    else if b == [] then 1
    else if a[0] < b[0] then -1
    else if a[0] > b[0] then 1
    else
      assert a == [a[0]] + a[1..] && b == [b[0]] + b[1..];
      Compare(a[1..], b[1..])
  }

  /** Swapping the operands of compare flips the sign. */
  lemma {:induction false} CompareAntisymmetric(a: seq<char>, b: seq<char>)
    ensures Compare(b, a) == -Compare(a, b)
    decreases |a|
  {
    if a != [] && b != [] && a[0] == b[0] {
      CompareAntisymmetric(a[1..], b[1..]);
    }
  }

  /** a sorts before b: after a common prefix of length k, either a ends
      and b goes on, or a's next character is the smaller. */
  predicate LexLess(a: seq<char>, b: seq<char>) {
    exists k: nat :: k <= |a| && k <= |b| && a[..k] == b[..k]
                     && ((k == |a| && k < |b|) || (k < |a| && k < |b| && a[k] < b[k]))
  }

  /** compare is negative exactly when this string sorts before the other,
      and positive exactly when it sorts after. */
  lemma {:induction false} CompareOrder(a: seq<char>, b: seq<char>)
    ensures Compare(a, b) < 0 <==> LexLess(a, b)
    ensures Compare(a, b) > 0 <==> LexLess(b, a)
    decreases |a|
  {
    if a == [] || b == [] {
      assert a[..0] == b[..0];
      if a != [] { LexLessNotEmpty(a, b); }
      if b != [] { LexLessNotEmpty(b, a); }
    } else if a[0] != b[0] {
      assert a[..0] == b[..0];
      HeadsDecide(a, b);
      HeadsDecide(b, a);
    } else {
      CompareOrder(a[1..], b[1..]);
      LexLessTail(a, b);
      LexLessTail(b, a);
    }
  }

  /** Nothing sorts before the empty string. */
  lemma {:induction false} LexLessNotEmpty(a: seq<char>, b: seq<char>)
    requires b == []
    ensures !LexLess(a, b)
  {
  }

  /** Two strings with different first characters sort by them. */
  lemma {:induction false} HeadsDecide(a: seq<char>, b: seq<char>)
    requires a != [] && b != [] && a[0] != b[0]
    ensures LexLess(a, b) <==> a[0] < b[0]
  {
    if LexLess(a, b) {
      var k: nat :| k <= |a| && k <= |b| && a[..k] == b[..k]
                    && ((k == |a| && k < |b|) || (k < |a| && k < |b| && a[k] < b[k]));
      PrefixHeads(a, b, k);
    }
    if a[0] < b[0] {
      assert a[..0] == b[..0];
    }
  }

  /** Strings with a common non-empty prefix start with the same character. */
  lemma {:induction false} PrefixHeads(a: seq<char>, b: seq<char>, k: nat)
    requires a != [] && b != [] && k <= |a| && k <= |b| && a[..k] == b[..k]
    ensures k > 0 ==> a[0] == b[0]
  {
    if k > 0 {
      assert a[..k][0] == b[..k][0];
    }
  }

  /** Two strings with the same first character sort as their tails do. */
  lemma {:induction false} LexLessTail(a: seq<char>, b: seq<char>)
    requires a != [] && b != [] && a[0] == b[0]
    ensures LexLess(a, b) <==> LexLess(a[1..], b[1..])
  {
    var a', b' := a[1..], b[1..];
    if LexLess(a, b) {
      var k: nat :| k <= |a| && k <= |b| && a[..k] == b[..k]
                    && ((k == |a| && k < |b|) || (k < |a| && k < |b| && a[k] < b[k]));
      assert k > 0;
      assert a'[..k - 1] == a[1..k] == b[1..k] == b'[..k - 1];
      assert k - 1 < |a'| ==> a'[k - 1] == a[k];
      assert k - 1 < |b'| ==> b'[k - 1] == b[k];
    }
    if LexLess(a', b') {
      var k: nat :| k <= |a'| && k <= |b'| && a'[..k] == b'[..k]
                    && ((k == |a'| && k < |b'|) || (k < |a'| && k < |b'| && a'[k] < b'[k]));
      assert a[..k + 1] == [a[0]] + a'[..k] == [b[0]] + b'[..k] == b[..k + 1];
      assert k + 1 < |a| ==> a[k + 1] == a'[k];
      assert k + 1 < |b| ==> b[k + 1] == b'[k];
    }
  }

  /** A sequence of `n` copies of `ch`: what assign(n, ch) stores. */
  function Copies(n: nat, ch: char): (r: seq<char>)
    ensures |r| == n && forall k :: 0 <= k < n ==> r[k] == ch
  {
    seq(n, _ => ch)
  }

  /** A single-character match is that character at that index. */
  lemma {:induction false} CharMatches(s: seq<char>, c: char)
    ensures forall j: nat :: MatchAt(s, [c], j) <==> j < |s| && s[j] == c
  {
    forall j: nat
      ensures MatchAt(s, [c], j) <==> j < |s| && s[j] == c
    {
      MatchAtChar(s, c, j);
    }
  }
}
