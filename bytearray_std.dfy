/** The ByteArray class of include/bytearray.h: a std::string whose member
    functions read it, or change it in place and return *this. Here the
    string is the field `value`, the const members are functions that read
    it, and the mutating members are methods that reassign it. */
module ByteArrayStd {
  import opened Wrappers
  import opened CharClass
  import opened CaseMap
  import opened StdString
  import opened Trimming
  import opened SplitJoin
  import opened Conversions
  import opened HexCodec

  /** The path separator on the platforms modelled (not Windows). */
  const SLASH: char := '/'

  class ByteArray {
    var value: seq<char>

    constructor(s: seq<char>)
      ensures value == s
    {
      value := s;
    }

    /** left(len): the first len characters, or the whole string when len
        reaches its size. */
    function Left(len: nat): (r: seq<char>)
      reads this
      ensures |r| == Min(len, |value|) && r == value[..|r|]
    {
      if len >= |value| then value else Substr(value, 0, len)
    }

    /** right(len): the last len characters, or the whole string. */
    function Right(len: nat): (r: seq<char>)
      reads this
      ensures |r| == Min(len, |value|) && r == value[|value| - |r|..]
    {
      if len >= |value| then value else Substr(value, |value| - len, len)
    }

    /** mid(pos, len): up to len characters from pos; empty when pos is at
        or past the end (so substr never throws here). */
    function Mid(pos: nat, len: nat): (r: seq<char>)
      reads this
      ensures pos >= |value| ==> r == []
      ensures pos < |value| ==> |r| == Min(len, |value| - pos) && r == value[pos..pos + |r|]
    {
      if pos >= |value| then [] else Substr(value, pos, len)
    }

    /** startsWith: the size is large enough and the leading substr equals
        the prefix. */
    function StartsWith(prefix: seq<char>): (r: bool)
      reads this
      ensures r <==> MatchAt(value, prefix, 0)
    {
      |value| >= |prefix| && Substr(value, 0, |prefix|) == prefix
    }

    /** endsWith: the size is large enough and the trailing substr equals
        the suffix. */
    function EndsWith(suffix: seq<char>): (r: bool)
      reads this
      ensures r <==> |suffix| <= |value| && MatchAt(value, suffix, |value| - |suffix|)
    {
      |value| >= |suffix| && value[|value| - |suffix|..] == suffix
    }

    /** contains: find(str) is not npos. */
    function Contains(str: seq<char>): (r: bool)
      reads this
      ensures r <==> Occurs(value, str)
    {
      FindFirst(value, str, 0);
      Find(value, str, 0).Some?
    }

    /** indexOf(ch, from): the first position at or after from holding ch;
        None stands for npos. */
    function IndexOfChar(ch: char, from: nat): (r: Option<nat>)
      reads this
      ensures r.Some? ==> from <= r.value < |value| && value[r.value] == ch
      ensures r.Some? ==> forall j :: from <= j < r.value ==> value[j] != ch
      ensures r.None? ==> forall j :: from <= j < |value| ==> value[j] != ch
    {
      var r := Find(value, [ch], from);
      FindFirst(value, [ch], from);
      CharMatches(value, ch);
      r
    }

    /** indexOf(str, from): the first occurrence of str at or after from. */
    function IndexOf(str: seq<char>, from: nat): (r: Option<nat>)
      reads this
      ensures r.Some? ==> from <= r.value && r.value + |str| <= |value|
                          && value[r.value..r.value + |str|] == str
      ensures r.Some? ==> forall j: nat :: from <= j < r.value ==> !MatchAt(value, str, j)
      ensures r.None? ==> forall j: nat :: from <= j ==> !MatchAt(value, str, j)
    {
      FindFirst(value, str, from);
      Find(value, str, from)
    }

    /** lastIndexOf(ch, from): the last position at or before from holding
        ch (from defaults to npos, the whole string). */
    function LastIndexOfChar(ch: char, from: nat): (r: Option<nat>)
      reads this
      ensures r.Some? ==> r.value <= from && r.value < |value| && value[r.value] == ch
      ensures r.Some? ==> forall j :: r.value < j <= from && j < |value| ==> value[j] != ch
      ensures r.None? ==> forall j :: 0 <= j <= from && j < |value| ==> value[j] != ch
    {
      var r := RFind(value, [ch], from);
      RFindLast(value, [ch], from);
      CharMatches(value, ch);
      r
    }

    /** lastIndexOf(str, from): the last occurrence of str starting at or
        before from. */
    function LastIndexOf(str: seq<char>, from: nat): (r: Option<nat>)
      reads this
      ensures r.Some? ==> r.value <= from && r.value + |str| <= |value|
                          && value[r.value..r.value + |str|] == str
      ensures r.Some? ==> forall j: nat :: r.value < j <= from ==> !MatchAt(value, str, j)
      ensures r.None? ==> forall j: nat :: j <= from ==> !MatchAt(value, str, j)
    {
      RFindLast(value, str, from);
      RFind(value, str, from)
    }

    /** compare(other, caseSensitive): std::string::compare, on lower-cased
        copies when caseSensitive is false: negative when this string sorts
        first, zero when equal, positive when it sorts after. */
    function Compare(other: ByteArray, caseSensitive: bool): (r: int)
      reads this, other
      ensures -1 <= r <= 1
      ensures caseSensitive ==> (r == 0 <==> value == other.value)
      ensures !caseSensitive ==> (r == 0 <==> Lower(value) == Lower(other.value))
      ensures caseSensitive ==> (r < 0 <==> LexLess(value, other.value)) && (r > 0 <==> LexLess(other.value, value))
      ensures !caseSensitive ==> (r < 0 <==> LexLess(Lower(value), Lower(other.value)))
                                 && (r > 0 <==> LexLess(Lower(other.value), Lower(value)))
    {
      CompareOrder(value, other.value);
      CompareOrder(Lower(value), Lower(other.value));
      if caseSensitive then StdString.Compare(value, other.value)
      else StdString.Compare(Lower(value), Lower(other.value))
    }

    /** toInt: std::stoi, or 0 and false when it throws (no digits, or a
        value outside int). */
    function ToInt(): (r: Converted)
      reads this
      ensures r.ok ==> INT_MIN <= r.value <= INT_MAX
      ensures r.ok <==> Stoi(value).Some?
      ensures !r.ok ==> r.value == 0
    {
      Convert(Stoi(value))
    }

    /** toLong: std::stol, with a 64-bit long. */
    function ToLong(): (r: Converted)
      reads this
      ensures r.ok ==> LONG_MIN <= r.value <= LONG_MAX
      ensures r.ok <==> Stol(value).Some?
      ensures !r.ok ==> r.value == 0
    {
      Convert(Stol(value))
    }

    /** toUInt: static_cast<unsigned int>(std::stoul(...)), which keeps the
        low 32 bits. */
    function ToUInt(): (r: Converted)
      reads this
      ensures r.ok ==> 0 <= r.value < 0x1_0000_0000
      ensures r.ok <==> Stoul(value).Some?
      ensures r.ok ==> r.value == Stoul(value).value % 0x1_0000_0000
      ensures !r.ok ==> r.value == 0
    {
      match Stoul(value)
      case None => Converted(0, false)
      case Some(v) => Converted(v % 0x1_0000_0000, true)
    }

    /** toULong: std::stoul, with a 64-bit unsigned long. */
    function ToULong(): (r: Converted)
      reads this
      ensures r.ok ==> 0 <= r.value <= ULONG_MAX
      ensures r.ok <==> Stoul(value).Some?
      ensures !r.ok ==> r.value == 0
    {
      Convert(Stoul(value))
    }

    /** prepend(str): str + *this, the same string as InsertAt(value, 0, str). */
    method Prepend(str: seq<char>)
      modifies this
      ensures value == str + old(value)
    {
      value := str + value;
    }

    /** prepend(ch): ch + *this. */
    method PrependChar(ch: char)
      modifies this
      ensures value == [ch] + old(value)
    {
      value := [ch] + value;
    }

    /** toLower: ::tolower on every character, in place. */
    method ToLower()
      modifies this
      ensures value == Lower(old(value))
    {
      value := Lower(value);
    }

    /** toUpper: ::toupper on every character, in place. */
    method ToUpper()
      modifies this
      ensures value == Upper(old(value))
    {
      value := Upper(value);
    }

    /** trimLeft: drop the leading whitespace. */
    method TrimLeft()
      modifies this
      ensures value == Trimming.TrimLeft(old(value))
    {
      match FirstNotSpace(value, 0)
      case Some(start) => value := value[start..];
      case None => value := [];
    }

    /** trimRight: drop the trailing whitespace. */
    method TrimRight()
      modifies this
      ensures value == Trimming.TrimRight(old(value))
    {
      match LastNotSpace(value, |value|)
      case Some(end) => value := Substr(value, 0, end + 1);
      case None => value := [];
    }

    /** trim: trimLeft().trimRight(). */
    method Trim()
      modifies this
      ensures value == Trimming.Trim(old(value))
    {
      TrimLeft();
      TrimRight();
    }

    /** replace(oldStr, newStr): replace each occurrence found scanning
        forward; the scan resumes just after the inserted text, so inserted
        text is never searched again. The source's loop never ends on an
        empty oldStr (ReplaceEmptyPatternNeverStops); here an empty oldStr
        leaves the string unchanged, as intended. */
    method Replace(oldStr: seq<char>, newStr: seq<char>)
      modifies this
      ensures value == ReplaceChecked(old(value), oldStr, newStr)
    {
      if |oldStr| == 0 {
        return;
      }
      var pos: nat := 0;
      var next := Find(value, oldStr, pos);
      while next.Some?
        invariant pos <= |value|
        invariant next == Find(value, oldStr, pos)
        invariant value[..pos] + ReplaceAll(value[pos..], oldStr, newStr) == ReplaceAll(old(value), oldStr, newStr)
        decreases |value| - pos
      {
        var j := next.value;
        ReplaceStep(value, oldStr, newStr, pos, j, ReplaceAll(old(value), oldStr, newStr));
        value := value[..j] + newStr + value[j + |oldStr|..];
        pos := j + |newStr|;
        next := Find(value, oldStr, pos);
      }
      ReplaceLast(value, oldStr, newStr, pos, ReplaceAll(old(value), oldStr, newStr));
    }

    /** remove(pos, len): erase(pos, len) when pos is inside the string,
        otherwise nothing. */
    method Remove(pos: nat, len: nat)
      modifies this
      ensures value == if pos < |old(value)| then Erase(old(value), pos, len) else old(value)
    {
      if pos < |value| {
        value := Erase(value, pos, len);
      }
    }

    /** insert(pos, str): std::string::insert, which throws out_of_range
        when pos is past the end and leaves the string unchanged. */
    method Insert(pos: nat, str: seq<char>) returns (o: Outcome)
      modifies this
      ensures pos > |old(value)| ==> o == Thrown(OutOfRange) && value == old(value)
      ensures pos <= |old(value)| ==> o == Done && value == InsertAt(old(value), pos, str)
    {
      if pos > |value| {
        return Thrown(OutOfRange);
      }
      value := InsertAt(value, pos, str);
      return Done;
    }

    /** fill(ch, size): size copies of ch, or as many as the current size
        when size is negative (the default -1). */
    method Fill(ch: char, size: int)
      modifies this
      ensures |value| == if size < 0 then |old(value)| else size
      ensures forall k :: 0 <= k < |value| ==> value[k] == ch
    {
      if size < 0 {
        value := Copies(|value|, ch);
      } else {
        value := Copies(size, ch);
      }
    }

    /** split(ch): one part per std::getline call on a stream over the
        string. */
    method SplitChar(delimiter: char) returns (parts: seq<seq<char>>)
      ensures parts == GetlineSplit(value, delimiter)
    {
      var s := value;
      ghost var total := GetlineAt(s, delimiter, 0);
      parts := [];
      var start: nat := 0;
      while start < |s|
        invariant start <= |s|
        invariant parts + GetlineAt(s, delimiter, start) == total
        decreases |s| - start
      {
        var part, next := Getline(s, delimiter, start);
        ConsAssoc(parts, part, GetlineAt(s, delimiter, next));
        parts := parts + [part];
        start := next;
      }
      GetlineLoopDone(s, delimiter, parts);
    }

    /** split(delimiter): the text between consecutive occurrences, then
        the rest. The source's loop never ends on an empty delimiter
        (SplitEmptyDelimiterNeverStops); here an empty delimiter yields the
        whole string as the one part. */
    method Split(delimiter: seq<char>) returns (parts: seq<seq<char>>)
      ensures parts == SplitChecked(value, delimiter)
    {
      if |delimiter| == 0 {
        return [value];
      }
      var s := value;
      parts := [];
      var start: nat := 0;
      var end := Find(s, delimiter, 0);
      while end.Some?
        invariant start <= |s|
        invariant end == Find(s, delimiter, start)
        invariant parts + SplitAt(s, delimiter, start) == SplitAt(s, delimiter, 0)
        decreases |s| - start
      {
        var j := end.value;
        SplitLoopStep(s, delimiter, start, j, parts, SplitAt(s, delimiter, 0));
        parts := parts + [s[start..j]];
        start := j + |delimiter|;
        end := Find(s, delimiter, start);
      }
      SplitLoopDone(s, delimiter, start, parts);
      parts := parts + [s[start..]];
    }

    /** join(parts, delimiter): the first part, then delimiter + part for
        each further part. */
    static method Join(parts: seq<seq<char>>, delimiter: seq<char>) returns (result: seq<char>)
      ensures result == JoinWith(parts, delimiter)
    {
      if |parts| == 0 {
        return [];
      }
      result := parts[0];
      var i := 1;
      while i < |parts|
        invariant 1 <= i <= |parts|
        invariant result == JoinWith(parts[..i], delimiter)
      {
        assert parts[..i + 1][..i] == parts[..i];
        result := result + (delimiter + parts[i]);
        i := i + 1;
      }
      assert parts[..i] == parts;
    }

    /** repeated(times): empty for times <= 0, the string itself for 1,
        otherwise times copies appended one by one. */
    method Repeated(times: int) returns (result: seq<char>)
      ensures result == Repeat(value, if times <= 0 then 0 else times)
    {
      if times <= 0 {
        return [];
      }
      if times == 1 {
        return value;
      }
      result := [];
      var i := 0;
      while i < times
        invariant 0 <= i <= times
        invariant result == Repeat(value, i)
      {
        result := result + value;
        i := i + 1;
      }
    }

    /** toHexString: two lower-case hex digits per byte, zero-padded. */
    method ToHexString() returns (hex: seq<char>)
      ensures hex == HexEncode(value)
    {
      hex := [];
      var i := 0;
      while i < |value|
        invariant 0 <= i <= |value|
        invariant hex == HexEncode(value[..i])
      {
        assert value[..i + 1] == value[..i] + [value[i]];
        EncodeSnoc(value[..i], value[i]);
        hex := hex + HexByte(value[i]);
        i := i + 1;
      }
      assert value[..i] == value;
    }

    /** fromHexString(hexStr): empty for an odd length; otherwise each pair
        through std::stoi(pair, nullptr, 16) cast to char, and empty as soon
        as one pair throws. */
    static method FromHexString(hexStr: seq<char>) returns (result: seq<char>)
      ensures |hexStr| % 2 != 0 ==> result == []
      ensures |hexStr| % 2 == 0 ==> result == match DecodePairs(hexStr)
                                              case None => []
                                              case Some(bytes) => bytes
    {
      if |hexStr| % 2 != 0 {
        return [];
      }
      result := [];
      var i := 0;
      while i < |hexStr|
        invariant 0 <= i <= |hexStr| && i % 2 == 0
        invariant DecodePairs(hexStr[..i]) == Some(result)
      {
        var byteStr := Substr(hexStr, i, 2);
        var parsed := StoiHex(byteStr);
        HexLoopStep(hexStr, i, result, parsed);
        if parsed.None? {
          DecodeFailurePersists(hexStr, i + 2);
          return [];
        }
        result := result + [ByteChar(parsed.value)];
        i := i + 2;
      }
      assert hexStr[..i] == hexStr;
    }

    /** number(n, base): decimal for base 10, "0x" and hex digits for 16,
        "0" and octal digits for 8, and decimal for any other base. */
    static function Number(n: Int32, base: int): (r: seq<char>)
      ensures base == 16 ==> |r| >= 3 && r[..2] == "0x"
      ensures base == 8 ==> |r| >= 2 && r[0] == '0'
    {
      if base == 10 then ToString(n)
      else if base == 16 then "0x" + StreamInt(n, 16)
      else if base == 8 then "0" + StreamInt(n, 8)
      else ToString(n)
    }

    /** getFileName(path): what follows the last SLASH, or the whole path. */
    static function FileName(path: seq<char>): (r: seq<char>)
      ensures |r| <= |path| && r == path[|path| - |r|..]
    {
      match RFind(path, [SLASH], NPOS)
      case Some(pos) => path[pos + 1..]
      case None => path
    }

    /** getDirectory(path): everything up to and including the last SLASH,
        or empty. */
    static function Directory(path: seq<char>): (r: seq<char>)
      ensures |r| <= |path| && r == path[..|r|]
    {
      match RFind(path, [SLASH], NPOS)
      case Some(pos) => path[..pos + 1]
      case None => []
    }

    /** getFileExtension(path): from the last '.' on, when that dot comes
        after the last SLASH; otherwise empty. */
    static function FileExtension(path: seq<char>): (r: seq<char>)
      ensures |r| <= |path| && r == path[|path| - |r|..]
    {
      var dotPos := RFind(path, ['.'], NPOS);
      var slashPos := RFind(path, [SLASH], NPOS);
      if dotPos.Some? && (slashPos.None? || dotPos.value > slashPos.value) then path[dotPos.value..]
      else []
    }
  }

  /** left, right and mid cut the same string: a left part and the right
      part of the remaining length rebuild it, mid from 0 is left, and mid
      to the end is right. */
  lemma {:induction false} SlicesAgree(b: ByteArray, k: nat, len: nat)
    requires k <= |b.value|
    ensures b.Left(k) + b.Right(|b.value| - k) == b.value
    ensures b.Mid(0, len) == b.Left(len) || b.value == []
    ensures k < |b.value| ==> b.Mid(k, |b.value| - k) == b.Right(|b.value| - k)
  {
    assert b.value[..k] + b.value[k..] == b.value;
  }

  /** The queries agree with one another: contains is indexOf from 0 not
      being npos, a prefix is found at 0, and a suffix is the last
      occurrence. */
  lemma {:induction false} QueriesAgree(b: ByteArray, str: seq<char>)
    requires |b.value| <= NPOS
    ensures b.Contains(str) <==> b.IndexOf(str, 0).Some?
    ensures b.StartsWith(str) <==> b.IndexOf(str, 0) == Some(0)
    ensures b.EndsWith(str) <==> b.LastIndexOf(str, NPOS) == Some(|b.value| - |str|) && |str| <= |b.value|
  {
    if b.EndsWith(str) {
      assert MatchAt(b.value, str, |b.value| - |str|);
    }
  }

  /** compare is antisymmetric in either mode, and the case-insensitive
      mode treats a string and its upper-cased copy as equal. */
  lemma {:induction false} CompareProperties(a: ByteArray, b: ByteArray, caseSensitive: bool)
    ensures a.Compare(b, caseSensitive) == -b.Compare(a, caseSensitive)
    ensures b.value == Upper(a.value) ==> a.Compare(b, false) == 0
  {
    CompareAntisymmetric(a.value, b.value);
    CompareAntisymmetric(Lower(a.value), Lower(b.value));
    LowerOfUpper(a.value);
  }

  /** toInt reads back what number(n) writes in decimal, that is for base 10
      and for every base other than 8 and 16. */
  lemma {:induction false} ToIntOfNumber(b: ByteArray, n: Int32, base: int)
    requires base != 8 && base != 16 && b.value == ByteArray.Number(n, base)
    ensures b.ToInt() == Converted(n, true)
  {
    StoiToString(n);
  }

  /** toInt does not read back number(n, 16): std::stoi in base 10 stops at
      the 'x' of the "0x" prefix and returns 0. */
  lemma {:induction false} ToIntOfHexNumber(b: ByteArray, n: Int32)
    requires b.value == ByteArray.Number(n, 16)
    ensures b.ToInt() == Converted(0, true)
  {
    var ds := StreamInt(n, 16);
    assert b.value == "0" + ("x" + ds);
    assert DigitValue('0') == 0 && DigitValue('x') == 33;
    StoiStopsAtNonDigit("0", "x" + ds);
    StoiToString(0);
    assert ToString(0) == NatDigits(0, 10) == "0";
  }

  /** number(n, 16) and number(n, 8) write the 32-bit two's complement
      pattern of n after their prefix: the digits read back as n mod 2^32. */
  lemma {:induction false} NumberPrefixedDigits(n: Int32, base: int)
    requires base == 8 || base == 16
    ensures var r := ByteArray.Number(n, base);
            var ds := r[if base == 16 then 2 else 1..];
            (forall k :: 0 <= k < |ds| ==> IsDigitIn(ds[k], base) && IsLowerHexDigit(ds[k]))
            && (|ds| == 1 || ds[0] != '0')
            && DigitsValue(ds, base) == n % 0x1_0000_0000
  {
    var r := ByteArray.Number(n, base);
    var ds := StreamInt(n, base);
    if base == 16 {
      assert r[2..] == ds;
    } else {
      assert r[1..] == ds;
    }
    DigitsRoundTrip(n % 0x1_0000_0000, base);
  }

  /** number(255, 16) is "0xff"; a base other than 8, 10 and 16, such as 2,
      falls back to decimal, so number(15, 2) is "15". */
  lemma {:induction false} NumberExamples()
    ensures ByteArray.Number(255, 16) == "0xff"
    ensures ByteArray.Number(15, 2) == "15"
  {
    assert NatDigits(15, 16) == ['f'];
    assert NatDigits(255, 16) == NatDigits(15, 16) + ['f'];
    assert NatDigits(15, 10) == NatDigits(1, 10) + ['5'];
  }

  /** toUInt keeps the low 32 bits of what stoul returns, so "-1", which
      stoul turns into ULONG_MAX, gives UINT_MAX. */
  lemma {:induction false} ToUIntOfMinusOne(b: ByteArray)
    requires b.value == "-1"
    ensures b.ToUInt() == Converted(0xFFFF_FFFF, true)
  {
    assert DigitValue('1') == 1;
    assert DigitsValue("1", 10) == 1 by {
      assert "1"[..0] == [];
    }
    StoulWrapsNegative("1");
    assert Stoul(b.value) == Some(ULONG_MAX);
  }

  /** rfind of one character from npos is the last occurrence in the
      string. */
  lemma {:induction false} LastOccurrence(s: seq<char>, c: char)
    requires |s| <= NPOS
    ensures RFind(s, [c], NPOS).Some? ==>
              var p := RFind(s, [c], NPOS).value;
              p < |s| && s[p] == c && forall j :: p < j < |s| ==> s[j] != c
    ensures RFind(s, [c], NPOS).None? ==> c !in s
  {
    RFindLast(s, [c], NPOS);
    CharMatches(s, c);
  }

  /** A path is its directory followed by its file name; the directory is
      empty or ends with the separator, and the file name holds none. */
  lemma {:induction false} PathSplits(path: seq<char>)
    requires |path| <= NPOS
    ensures ByteArray.Directory(path) + ByteArray.FileName(path) == path
    ensures SLASH !in ByteArray.FileName(path)
    ensures var dir := ByteArray.Directory(path); dir == [] || dir[|dir| - 1] == SLASH
  {
    LastOccurrence(path, SLASH);
    match RFind(path, [SLASH], NPOS)
    case None =>
      assert ByteArray.FileName(path) == path;
    case Some(p) =>
      var dir, name := path[..p + 1], path[p + 1..];
      assert ByteArray.Directory(path) == dir && ByteArray.FileName(path) == name;
      assert dir + name == path;
      assert dir[p] == path[p];
      NoneInSuffix(path, SLASH, p + 1);
  }

  /** The extension is empty exactly when the file name has no '.';
      otherwise it is the file name's tail from its last '.'. */
  lemma {:induction false} ExtensionOfFileName(path: seq<char>)
    requires |path| <= NPOS
    ensures var ext, name := ByteArray.FileExtension(path), ByteArray.FileName(path);
            (ext == [] <==> '.' !in name)
            && (ext != [] ==> ext[0] == '.' && '.' !in ext[1..] && |ext| <= |name|
                              && ext == name[|name| - |ext|..])
  {
    LastOccurrence(path, SLASH);
    LastOccurrence(path, '.');
    var name := ByteArray.FileName(path);
    var ext := ByteArray.FileExtension(path);
    var start := |path| - |name|;
    match RFind(path, ['.'], NPOS)
    case None =>
      assert ext == [];
      NoneInSuffix(path, '.', start);
    case Some(d) =>
      NoneInSuffix(path, '.', d + 1);
      match RFind(path, [SLASH], NPOS)
      case None =>
        assert start == 0 && ext == path[d..];
        TailOfSuffix(path, start, d);
      case Some(sl) =>
        assert start == sl + 1;
        if d > sl {
          assert ext == path[d..];
          TailOfSuffix(path, start, d);
        } else {
          assert ext == [];
          NoneInSuffix(path, '.', start);
        }
  }

  /** A character absent from every index at or after p is absent from
      s[p..]. */
  lemma {:induction false} NoneInSuffix(s: seq<char>, c: char, p: nat)
    requires p <= |s| && forall j :: p <= j < |s| ==> s[j] != c
    ensures c !in s[p..]
  {
    forall k | 0 <= k < |s| - p
      ensures s[p..][k] != c
    {
      assert s[p..][k] == s[p + k];
    }
  }

  /** A suffix from d of s is the suffix of s[a..] of the same length, and it
      begins with s[d]. */
  lemma {:induction false} TailOfSuffix(s: seq<char>, a: nat, d: nat)
    requires a <= d < |s|
    ensures var t := s[a..]; |s[d..]| <= |t| && s[d..] == t[|t| - |s[d..]|..]
    ensures s[d..][0] == s[d] && s[d..][1..] == s[d + 1..]
    ensures s[d] in s[a..]
  {
    assert s[a..][d - a] == s[d];
  }
}
