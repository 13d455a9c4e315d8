/** Splitting, joining, find-and-replace and repetition, as the ByteArray
    classes compute them with their scanning loops. */
module SplitJoin {
  import opened Wrappers
  import opened StdString

  /** The parts laid end to end with `sep` between consecutive parts: what
      both join implementations accumulate (nothing for no parts). */
  function JoinWith(parts: seq<seq<char>>, sep: seq<char>): seq<char>
    decreases |parts|
  {
    if |parts| == 0 then []
    else if |parts| == 1 then parts[0]
    else JoinWith(parts[..|parts| - 1], sep) + sep + parts[|parts| - 1]
  }

  /** Joining takes the first part, then the separator, then the join of the
      rest. */
  lemma {:induction false} JoinFront(p: seq<char>, ps: seq<seq<char>>, sep: seq<char>)
    requires |ps| > 0
    ensures JoinWith([p] + ps, sep) == p + sep + JoinWith(ps, sep)
    decreases |ps|
  {
    if |ps| > 1 {
      var init := ps[..|ps| - 1];
      assert ([p] + ps)[..|ps|] == [p] + init;
      JoinFront(p, init, sep);
    } else {
      assert ([p] + ps)[..1] == [p];
    }
  }

  /** Joining puts the separator only between parts: no parts give the empty
      string, one part gives that part, and each further part adds the
      separator and the part. */
  lemma {:induction false} JoinShape(parts: seq<seq<char>>, sep: seq<char>)
    ensures |parts| == 0 ==> JoinWith(parts, sep) == []
    ensures |parts| == 1 ==> JoinWith(parts, sep) == parts[0]
    ensures |parts| > 1 ==> JoinWith(parts, sep) == parts[0] + sep + JoinWith(parts[1..], sep)
  {
    if |parts| > 1 {
      assert parts == [parts[0]] + parts[1..];
      JoinFront(parts[0], parts[1..], sep);
    }
  }

  /** split(const std::string&) for a non-empty delimiter: the text before
      the first occurrence, then the split of what follows it; the final
      part is whatever remains after the last occurrence. */
  function SplitOn(s: seq<char>, d: seq<char>): (parts: seq<seq<char>>)
    requires |d| > 0
    ensures |parts| >= 1
    ensures forall k :: 0 <= k < |parts| ==> !Occurs(parts[k], d)
    decreases |s|
  {
    FindFirst(s, d, 0);
    match Find(s, d, 0)
    case None => [s]
    case Some(i) =>
      var rest := SplitOn(s[i + |d|..], d);
      PrefixBeforeFirstMatch(s, d, i);
      [s[..i]] + rest
  }

  lemma {:induction false} PrefixBeforeFirstMatch(s: seq<char>, d: seq<char>, i: nat)
    requires |d| > 0 && Find(s, d, 0) == Some(i)
    ensures !Occurs(s[..i], d)
  {
    FindFirst(s, d, 0);
    if Occurs(s[..i], d) {
      var j: nat :| j <= i && MatchAt(s[..i], d, j);
      assert s[..i][j..j + |d|] == s[j..j + |d|];
      assert MatchAt(s, d, j);
      assert false;
    }
  }

  /** Joining the parts of a split with the same delimiter rebuilds the
      string. */
  lemma {:induction false} JoinSplit(s: seq<char>, d: seq<char>)
    requires |d| > 0
    ensures JoinWith(SplitOn(s, d), d) == s
    decreases |s|
  {
    match Find(s, d, 0)
    case None =>
    case Some(i) =>
      var rest := s[i + |d|..];
      assert SplitOn(s, d) == [s[..i]] + SplitOn(rest, d);
      JoinSplit(rest, d);
      JoinFront(s[..i], SplitOn(rest, d), d);
      assert s[i..i + |d|] == d;
      Reassemble(s, i, i + |d|);
  }

  lemma {:induction false} Reassemble(s: seq<char>, i: nat, j: nat)
    requires i <= j <= |s|
    ensures s == s[..i] + s[i..j] + s[j..]
  {
    assert s[..j] == s[..i] + s[i..j];
    assert s == s[..j] + s[j..];
  }

  /** replace(oldStr, newStr) for a non-empty oldStr: occurrences found left
      to right, never overlapping, and never looked for inside inserted text. */
  function ReplaceAll(s: seq<char>, o: seq<char>, n: seq<char>): seq<char>
    requires |o| > 0
    decreases |s|
  {
    match Find(s, o, 0)
    case None => s
    case Some(i) => s[..i] + n + ReplaceAll(s[i + |o|..], o, n)
  }

  /** Replacing is splitting on oldStr and joining with newStr. */
  lemma {:induction false} ReplaceIsSplitJoin(s: seq<char>, o: seq<char>, n: seq<char>)
    requires |o| > 0
    ensures ReplaceAll(s, o, n) == JoinWith(SplitOn(s, o), n)
    decreases |s|
  {
    match Find(s, o, 0)
    case None =>
    case Some(i) =>
      var rest := s[i + |o|..];
      ReplaceIsSplitJoin(rest, o, n);
      JoinFront(s[..i], SplitOn(rest, o), n);
  }

  /** Replacing with an absent pattern, or replacing a pattern by itself,
      leaves the string as it was. */
  lemma {:induction false} ReplaceNoChange(s: seq<char>, o: seq<char>, n: seq<char>)
    requires |o| > 0
    ensures !Occurs(s, o) ==> ReplaceAll(s, o, n) == s
    ensures ReplaceAll(s, o, o) == s
  {
    match Find(s, o, 0) {
      case None =>
      case Some(i) => assert MatchAt(s, o, i);
    }
    ReplaceIsSplitJoin(s, o, o);
    JoinSplit(s, o);
  }

  /** The overlapping case: in "aaa", replacing "aa" by "a" gives "aa",
      because the scan resumes after the inserted "a" at the third 'a'. */
  lemma {:induction false} ReplaceOverlapping()
    ensures ReplaceAll("aaa", "aa", "a") == "aa"
  {
    assert Find("aaa", "aa", 0) == Some(0);
    assert "aaa"[2..] == "a";
    assert Find("a", "aa", 0) == None;
  }

  /** One pass of replace's loop as the source writes it: the next match
      at or after pos is replaced and the scan resumes just after the
      inserted text; None when no match is left and the loop ends. */
  function ReplaceIteration(s: seq<char>, o: seq<char>, n: seq<char>, pos: nat): Option<(seq<char>, nat)> {
    match Find(s, o, pos)
    case None => None
    case Some(j) => Some((s[..j] + n + s[j + |o|..], j + |n|))
  }

  /** With an empty oldStr every pass finds a match at pos and leaves pos
      inside the new string, so the next pass finds one again and the loop
      never ends; with an empty newStr too, the state does not even change.
      replace("", "X") on "aaa" goes "Xaaa", "XXaaa", ... */
  lemma {:induction false} ReplaceEmptyPatternNeverStops(s: seq<char>, n: seq<char>, pos: nat)
    requires pos <= |s|
    ensures var r := ReplaceIteration(s, [], n, pos);
            r.Some? && r.value.1 <= |r.value.0| && r.value.0 == s[..pos] + n + s[pos..]
    ensures n == [] ==> ReplaceIteration(s, [], n, pos) == Some((s, pos))
    ensures ReplaceIteration("aaa", [], "X", 0) == Some(("Xaaa", 1))
  {
    assert s[pos..pos + 0] == [];
    assert Find(s, [], pos) == Some(pos);
    if n == [] {
      assert s[..pos] + n + s[pos..] == s;
    }
    var a: seq<char> := "aaa";
    assert a[0..0] == [];
    assert Find(a, [], 0) == Some(0);
    assert a[..0] + "X" + a[0..] == "Xaaa";
  }

  /** replace as evidently intended: an empty oldStr leaves the string
      unchanged, and any other oldStr is replaced as the loop does. */
  function ReplaceChecked(s: seq<char>, o: seq<char>, n: seq<char>): (r: seq<char>)
    ensures |o| == 0 ==> r == s
    ensures |o| > 0 ==> r == JoinWith(SplitOn(s, o), n)
    ensures !Occurs(s, o) ==> r == s
  {
    if |o| == 0 then s
    else
      ReplaceIsSplitJoin(s, o, n);
      ReplaceNoChange(s, o, n);
      ReplaceAll(s, o, n)
  }

  /** One pass of split(string)'s loop as the source writes it: the part
      before the next match and the position after that match; None when
      no match is left and the loop ends. */
  function SplitIteration(s: seq<char>, d: seq<char>, start: nat): Option<(seq<char>, nat)> {
    match Find(s, d, start)
    case None => None
    case Some(j) => Some((s[start..j], j + |d|))
  }

  /** With an empty delimiter every pass yields an empty part and leaves
      start where it was, so the loop never ends. */
  lemma {:induction false} SplitEmptyDelimiterNeverStops(s: seq<char>, start: nat)
    requires start <= |s|
    ensures Find(s, [], 0) == Some(0)
    ensures SplitIteration(s, [], start) == Some(([], start))
  {
    assert s[0..0] == [];
    assert s[start..start] == [];
  }

  /** split(string) as evidently intended: an empty delimiter yields the
      whole string as the one part, any other delimiter splits as the loop
      does; either way joining the parts with the delimiter gives back the
      string. */
  function SplitChecked(s: seq<char>, d: seq<char>): (parts: seq<seq<char>>)
    ensures |parts| >= 1
    ensures |d| == 0 ==> parts == [s]
    ensures |d| > 0 ==> parts == SplitOn(s, d)
    ensures JoinWith(parts, d) == s
  {
    if |d| == 0 then
      assert JoinWith([s], d) == s;
      [s]
    else
      JoinSplit(s, d);
      SplitOn(s, d)
  }

  /** split(char) through std::getline: each call reads up to the next
      delimiter; the loop stops when the stream is exhausted, so an empty
      string gives no parts and a final delimiter starts no further part. */
  function GetlineSplit(s: seq<char>, c: char): seq<seq<char>>
    decreases |s|
  {
    if s == [] then []
    else match Find(s, [c], 0)
      case None => [s]
      case Some(i) => [s[..i]] + GetlineSplit(s[i + 1..], c)
  }

  /** The getline split is the delimiter split with a trailing empty part
      dropped. */
  lemma {:induction false} GetlineIsSplitWithoutTrailingEmpty(s: seq<char>, c: char)
    ensures var full := SplitOn(s, [c]);
            GetlineSplit(s, c) == if full[|full| - 1] == [] then full[..|full| - 1] else full
    decreases |s|
  {
    if s != [] {
      match Find(s, [c], 0)
      case None =>
      case Some(i) =>
        var rest := s[i + 1..];
        GetlineIsSplitWithoutTrailingEmpty(rest, c);
        var tail := SplitOn(rest, [c]);
        assert SplitOn(s, [c]) == [s[..i]] + tail;
        if tail[|tail| - 1] == [] {
          assert ([s[..i]] + tail)[..|tail|] == [s[..i]] + tail[..|tail| - 1];
        }
    }
  }

  /** The edge cases of the getline split: no parts for "", the string
      itself when the delimiter is absent, a leading delimiter gives a
      leading empty part. */
  lemma {:induction false} GetlineSplitEdges(s: seq<char>, c: char)
    ensures GetlineSplit([], c) == []
    ensures s != [] && !Occurs(s, [c]) ==> GetlineSplit(s, c) == [s]
    ensures GetlineSplit([c] + s, c) == [[]] + GetlineSplit(s, c)
  {
    if s != [] && !Occurs(s, [c]) {
      if Find(s, [c], 0).Some? {
        assert MatchAt(s, [c], Find(s, [c], 0).value);
      }
    }
    var t := [c] + s;
    assert MatchAt(t, [c], 0);
    assert t[1..] == s;
  }

  /** A trailing delimiter adds no trailing empty part: splitting s + [c]
      with getline gives exactly the delimiter split of s. */
  lemma {:induction false} GetlineTrailingDelimiter(s: seq<char>, c: char)
    ensures GetlineSplit(s + [c], c) == SplitOn(s, [c])
  {
    SplitAppendDelimiter(s, c);
    GetlineIsSplitWithoutTrailingEmpty(s + [c], c);
    var full := SplitOn(s, [c]) + [[]];
    assert full[..|full| - 1] == SplitOn(s, [c]);
  }

  lemma {:induction false} SplitAppendDelimiter(s: seq<char>, c: char)
    ensures SplitOn(s + [c], [c]) == SplitOn(s, [c]) + [[]]
    decreases |s|
  {
    var t := s + [c];
    FindAppended(s, c);
    match Find(s, [c], 0)
    case None =>
      assert t[..|s|] == s;
      assert t[|s| + 1..] == [];
    case Some(i) =>
      assert t[..i] == s[..i];
      assert t[i + 1..] == s[i + 1..] + [c];
      SplitAppendDelimiter(s[i + 1..], c);
  }

  lemma {:induction false} FindAppended(s: seq<char>, c: char)
    ensures Find(s + [c], [c], 0) == match Find(s, [c], 0)
                                      case None => Some(|s|)
                                      case Some(i) => Some(i)
  {
    FindAppendedFrom(s, c, 0);
  }

  lemma {:induction false} FindAppendedFrom(s: seq<char>, c: char, from: nat)
    requires from <= |s|
    ensures Find(s + [c], [c], from) == match Find(s, [c], from)
                                         case None => Some(|s|)
                                         case Some(i) => Some(i)
    decreases |s| - from
  {
    var t := s + [c];
    if from == |s| {
      assert t[from..from + 1] == [c];
    } else {
      assert t[from..from + 1] == s[from..from + 1];
      if s[from..from + 1] != [c] {
        FindAppendedFrom(s, c, from + 1);
      }
    }
  }

  /** A single-character split and join are inverse on lists of parts that
      do not contain the delimiter. */
  lemma {:induction false} SplitJoinChar(parts: seq<seq<char>>, c: char)
    requires |parts| >= 1
    requires forall k :: 0 <= k < |parts| ==> !Occurs(parts[k], [c])
    ensures SplitOn(JoinWith(parts, [c]), [c]) == parts
    decreases |parts|
  {
    var p := parts[0];
    if |parts| == 1 {
    } else {
      var rest := parts[1..];
      JoinShape(parts, [c]);
      var s := JoinWith(parts, [c]);
      var tail := JoinWith(rest, [c]);
      assert s == p + [c] + tail;
      FindAfterFreePrefix(p, c, tail);
      assert s[..|p|] == p;
      assert s[|p| + 1..] == tail;
      SplitJoinChar(rest, c);
      assert parts == [p] + rest;
    }
  }

  lemma {:induction false} FindAfterFreePrefix(p: seq<char>, c: char, tail: seq<char>)
    requires Find(p, [c], 0).None?
    ensures Find(p + [c] + tail, [c], 0) == Some(|p|)
  {
    var s := p + [c] + tail;
    FindFirst(p, [c], 0);
    FindFirst(s, [c], 0);
    assert MatchAt(s, [c], |p|);
    forall j: nat | j < |p|
      ensures !MatchAt(s, [c], j)
    {
      assert s[j..j + 1] == p[j..j + 1];
      assert !MatchAt(p, [c], j);
    }
  }

  /** The scanning loops search the whole string from a start position.
      SplitAt and GetlineAt follow the two split loops: each recurses on
      the start position inside s rather than on a suffix, and each is
      proved equal to the suffix-based definition applied to s[start..].
      The replace loop rewrites the string as it goes, so ReplaceStep and
      ReplaceLast state its steps on the suffix-based definition. */
  function SplitAt(s: seq<char>, d: seq<char>, start: nat): (parts: seq<seq<char>>)
    requires |d| > 0 && start <= |s|
    decreases |s| - start
  {
    match Find(s, d, start)
    case None => [s[start..]]
    case Some(j) => [s[start..j]] + SplitAt(s, d, j + |d|)
  }

  function GetlineAt(s: seq<char>, c: char, start: nat): (parts: seq<seq<char>>)
    requires start <= |s|
    decreases |s| - start
  {
    if start == |s| then []
    else match Find(s, [c], start)
      case None => [s[start..]]
      case Some(j) => [s[start..j]] + GetlineAt(s, c, j + 1)
  }

  /** A match found at j from start is a match found at j - start in the
      suffix, and the suffix splits at it as s does. */
  lemma {:induction false} SuffixMatch(s: seq<char>, d: seq<char>, start: nat, j: nat)
    requires start <= j <= |s| && Find(s, d, start) == Some(j)
    ensures Find(s[start..], d, 0) == Some(j - start)
    ensures s[start..][..j - start] == s[start..j]
    ensures j + |d| <= |s| && s[start..][j - start + |d|..] == s[j + |d|..]
  {
    FindInSuffix(s, d, start);
  }

  lemma {:induction false} SuffixNoMatch(s: seq<char>, d: seq<char>, start: nat)
    requires start <= |s| && Find(s, d, start) == None
    ensures Find(s[start..], d, 0) == None
  {
    FindInSuffix(s, d, start);
  }

  lemma {:induction false} SplitAtMatch(u: seq<char>, d: seq<char>, k: nat)
    requires |d| > 0 && Find(u, d, 0) == Some(k)
    ensures SplitOn(u, d) == [u[..k]] + SplitOn(u[k + |d|..], d)
  {
  }

  lemma {:induction false} ReplaceAtMatch(u: seq<char>, o: seq<char>, n: seq<char>, k: nat)
    requires |o| > 0 && Find(u, o, 0) == Some(k)
    ensures ReplaceAll(u, o, n) == u[..k] + n + ReplaceAll(u[k + |o|..], o, n)
  {
  }

  lemma {:induction false} GetlineAtMatch(u: seq<char>, c: char, k: nat)
    requires u != [] && Find(u, [c], 0) == Some(k)
    ensures GetlineSplit(u, c) == [u[..k]] + GetlineSplit(u[k + 1..], c)
  {
  }

  /** The split loop computes the delimiter split of what follows start. */
  lemma {:induction false} SplitAtIsSplitOn(s: seq<char>, d: seq<char>, start: nat)
    requires |d| > 0 && start <= |s|
    ensures SplitAt(s, d, start) == SplitOn(s[start..], d)
    decreases |s| - start, 1
  {
    match Find(s, d, start)
    case None => SuffixNoMatch(s, d, start);
    case Some(j) => SplitAtMatchIs(s, d, start, j);
  }

  lemma {:induction false} SplitAtMatchIs(s: seq<char>, d: seq<char>, start: nat, j: nat)
    requires |d| > 0 && start <= j <= |s| && Find(s, d, start) == Some(j)
    ensures SplitAt(s, d, start) == SplitOn(s[start..], d)
    decreases |s| - start, 0
  {
    SplitAtUnfold(s, d, start, j);
    SplitOnAfter(s, d, start, j);
    SplitAtIsSplitOn(s, d, j + |d|);
    SameAfter([s[start..j]], SplitAt(s, d, j + |d|), SplitOn(s[j + |d|..], d));
  }

  lemma {:induction false} SplitAtUnfold(s: seq<char>, d: seq<char>, start: nat, j: nat)
    requires |d| > 0 && start <= |s| && Find(s, d, start) == Some(j)
    ensures j + |d| <= |s| && SplitAt(s, d, start) == [s[start..j]] + SplitAt(s, d, j + |d|)
  {
  }

  /** The getline loop computes the getline split of what follows start. */
  lemma {:induction false} GetlineAtIsGetlineSplit(s: seq<char>, c: char, start: nat)
    requires start <= |s|
    ensures GetlineAt(s, c, start) == GetlineSplit(s[start..], c)
    decreases |s| - start, 1
  {
    if start == |s| {
      assert s[start..] == [];
    } else {
      match Find(s, [c], start)
      case None =>
        SuffixNoMatch(s, [c], start);
        assert GetlineSplit(s[start..], c) == [s[start..]];
      case Some(j) => GetlineAtMatchIs(s, c, start, j);
    }
  }

  lemma {:induction false} GetlineAtMatchIs(s: seq<char>, c: char, start: nat, j: nat)
    requires start < |s| && start <= j && Find(s, [c], start) == Some(j)
    ensures GetlineAt(s, c, start) == GetlineSplit(s[start..], c)
    decreases |s| - start, 0
  {
    GetlineAtUnfold(s, c, start, j);
    GetlineAfter(s, c, start, j);
    GetlineAtIsGetlineSplit(s, c, j + 1);
    SameAfter([s[start..j]], GetlineAt(s, c, j + 1), GetlineSplit(s[j + 1..], c));
  }

  lemma {:induction false} GetlineAtUnfold(s: seq<char>, c: char, start: nat, j: nat)
    requires start < |s| && Find(s, [c], start) == Some(j)
    ensures j < |s| && GetlineAt(s, c, start) == [s[start..j]] + GetlineAt(s, c, j + 1)
  {
  }

  lemma {:induction false} SplitOnAfter(s: seq<char>, d: seq<char>, start: nat, j: nat)
    requires |d| > 0 && start <= j <= |s| && Find(s, d, start) == Some(j)
    ensures j + |d| <= |s|
    ensures SplitOn(s[start..], d) == [s[start..j]] + SplitOn(s[j + |d|..], d)
  {
    var u, k := s[start..], j - start;
    SuffixMatch(s, d, start, j);
    SplitAtMatch(u, d, k);
    var a, b := u[..k], u[k + |d|..];
    assert SplitOn(u, d) == [a] + SplitOn(b, d);
    assert a == s[start..j];
    assert b == s[j + |d|..];
    assert SplitOn(b, d) == SplitOn(s[j + |d|..], d);
  }

  lemma {:induction false} GetlineAfter(s: seq<char>, c: char, start: nat, j: nat)
    requires start <= j < |s| && Find(s, [c], start) == Some(j)
    ensures GetlineSplit(s[start..], c) == [s[start..j]] + GetlineSplit(s[j + 1..], c)
  {
    var u, k := s[start..], j - start;
    SuffixMatch(s, [c], start, j);
    GetlineAtMatch(u, c, k);
    var a, b := u[..k], u[k + 1..];
    assert GetlineSplit(u, c) == [a] + GetlineSplit(b, c);
    assert a == s[start..j];
    assert b == s[j + 1..];
    assert GetlineSplit(b, c) == GetlineSplit(s[j + 1..], c);
  }

  lemma {:induction false} ReplaceAfter(s: seq<char>, o: seq<char>, n: seq<char>, start: nat, j: nat)
    requires |o| > 0 && start <= j <= |s| && Find(s, o, start) == Some(j)
    ensures j + |o| <= |s|
    ensures ReplaceAll(s[start..], o, n) == s[start..j] + n + ReplaceAll(s[j + |o|..], o, n)
  {
    var u, k := s[start..], j - start;
    SuffixMatch(s, o, start, j);
    ReplaceAtMatch(u, o, n, k);
    var a, b := u[..k], u[k + |o|..];
    assert ReplaceAll(u, o, n) == a + n + ReplaceAll(b, o, n);
    assert a == s[start..j];
    assert b == s[j + |o|..];
    assert ReplaceAll(b, o, n) == ReplaceAll(s[j + |o|..], o, n);
  }

  /** Replacing m characters at j by n, seen from pos: the text up to the
      end of the inserted part, and what follows it. */
  lemma {:induction false} Splice(s: seq<char>, n: seq<char>, pos: nat, j: nat, m: nat, x: seq<char>)
    requires pos <= j && j + m <= |s|
    ensures var t := s[..j] + n + s[j + m..];
            j + |n| <= |t| && t[..j + |n|] + x == s[..pos] + (s[pos..j] + n + x)
            && t[j + |n|..] == s[j + m..]
  {
    var t := s[..j] + n + s[j + m..];
    assert s[..pos] + s[pos..j] == s[..j];
    assert t[..j + |n|] == s[..j] + n;
  }

  /** One iteration of the replace loop: the match at j is replaced and the
      scan resumes after the inserted text. */
  lemma {:induction false} ReplaceStep(s: seq<char>, o: seq<char>, n: seq<char>, pos: nat, j: nat, r: seq<char>)
    requires |o| > 0 && pos <= j <= |s| && Find(s, o, pos) == Some(j)
    requires s[..pos] + ReplaceAll(s[pos..], o, n) == r
    ensures j + |o| <= |s|
    ensures var t := s[..j] + n + s[j + |o|..];
            j + |n| <= |t| && t[..j + |n|] + ReplaceAll(t[j + |n|..], o, n) == r
  {
    ReplaceAfter(s, o, n, pos, j);
    var x := ReplaceAll(s[j + |o|..], o, n);
    Splice(s, n, pos, j, |o|, x);
    var t := s[..j] + n + s[j + |o|..];
    assert ReplaceAll(t[j + |n|..], o, n) == x;
    SameAfter(t[..j + |n|], ReplaceAll(t[j + |n|..], o, n), x);
    SameAfter(s[..pos], ReplaceAll(s[pos..], o, n), s[pos..j] + n + x);
  }

  /** The replace loop ends when no match is left after pos. */
  lemma {:induction false} ReplaceLast(s: seq<char>, o: seq<char>, n: seq<char>, pos: nat, r: seq<char>)
    requires |o| > 0 && pos <= |s| && Find(s, o, pos) == None
    requires s[..pos] + ReplaceAll(s[pos..], o, n) == r
    ensures s == r
  {
    SuffixNoMatch(s, o, pos);
    assert ReplaceAll(s[pos..], o, n) == s[pos..];
    assert s[..pos] + s[pos..] == s;
  }

  lemma {:induction false} SameAfter<T>(x: seq<T>, p: seq<T>, q: seq<T>)
    requires p == q
    ensures x + p == x + q
  {
  }

  lemma {:induction false} ConsAssoc<T>(p: seq<T>, a: T, z: seq<T>)
    ensures p + ([a] + z) == (p + [a]) + z
  {
  }

  /** `times` copies of s, one after the other. */
  function Repeat(s: seq<char>, times: nat): seq<char> {
    if times == 0 then [] else Repeat(s, times - 1) + s
  }

  /** Repeating t times gives length |s|·t, and position k holds s[k mod |s|]. */
  lemma {:induction false} RepeatShape(s: seq<char>, times: nat)
    ensures |Repeat(s, times)| == |s| * times
    ensures forall k :: 0 <= k < |s| * times ==> Repeat(s, times)[k] == s[k % |s|]
  {
    if times > 0 {
      RepeatShape(s, times - 1);
      var r := Repeat(s, times - 1);
      assert |s| * times == |s| * (times - 1) + |s|;
      forall k | |s| * (times - 1) <= k < |s| * times
        ensures Repeat(s, times)[k] == s[k % |s|]
      {
        ModShift(k, |s|, times - 1);
      }
    }
  }

  lemma {:induction false} ModShift(k: int, n: int, m: nat)
    requires n > 0 && n * m <= k < n * m + n
    ensures k % n == k - n * m
  {
    var q := k / n;
    var r := k - n * m;
    assert n * q + k % n == n * m + r;
    assert n * (q - m) == r - k % n;
    if q - m >= 1 {
      MulAtLeast(n, q - m);
    } else if q - m <= -1 {
      MulAtLeast(n, m - q);
    }
  }

  lemma {:induction false} MulAtLeast(n: int, x: int)
    requires n > 0 && x >= 1
    ensures n * x >= n
  {
  }

  /** One iteration of split(delimiter): the part before the match at j is
      emitted and the scan restarts after the delimiter. */
  lemma {:induction false} SplitLoopStep(s: seq<char>, d: seq<char>, start: nat, j: nat, parts: seq<seq<char>>,
                                        total: seq<seq<char>>)
    requires |d| > 0 && start <= |s| && Find(s, d, start) == Some(j)
    requires parts + SplitAt(s, d, start) == total
    ensures j + |d| <= |s|
    ensures (parts + [s[start..j]]) + SplitAt(s, d, j + |d|) == total
  {
    SplitAtUnfold(s, d, start, j);
    SameAfter(parts, SplitAt(s, d, start), [s[start..j]] + SplitAt(s, d, j + |d|));
    ConsAssoc(parts, s[start..j], SplitAt(s, d, j + |d|));
  }

  /** One std::getline call on a stream over s that stands at start: the
      text up to the next c, or to the end, and the position after that c. */
  method Getline(s: seq<char>, c: char, start: nat) returns (part: seq<char>, next: nat)
    requires start < |s|
    ensures start < next <= |s|
    ensures [part] + GetlineAt(s, c, next) == GetlineAt(s, c, start)
  {
    match Find(s, [c], start)
    case None =>
      assert GetlineAt(s, c, |s|) == [];
      part, next := s[start..], |s|;
    case Some(j) =>
      GetlineAtUnfold(s, c, start, j);
      part, next := s[start..j], j + 1;
  }

  /** When the stream is exhausted the parts read are the getline split. */
  lemma {:induction false} GetlineLoopDone(s: seq<char>, c: char, parts: seq<seq<char>>)
    requires parts + GetlineAt(s, c, |s|) == GetlineAt(s, c, 0)
    ensures parts == GetlineSplit(s, c)
  {
    assert GetlineAt(s, c, |s|) == [];
    assert parts + [] == parts;
    GetlineAtIsGetlineSplit(s, c, 0);
    assert s[0..] == s;
  }

  /** The last part of split(delimiter) completes the delimiter split. */
  lemma {:induction false} SplitLoopDone(s: seq<char>, d: seq<char>, start: nat, parts: seq<seq<char>>)
    requires |d| > 0 && start <= |s| && Find(s, d, start) == None
    requires parts + SplitAt(s, d, start) == SplitAt(s, d, 0)
    ensures parts + [s[start..]] == SplitOn(s, d)
  {
    assert SplitAt(s, d, start) == [s[start..]];
    SplitAtIsSplitOn(s, d, 0);
    assert s[0..] == s;
  }
}
