/** The ByteArray class of capability-foundations/leee/bytearray.h: a class
    holding a private std::string. Its const members return new ByteArray
    objects, modelled here as the new object's string; the members that
    return *this after changing it are methods on the field `data`. Where
    the std::string-derived class clamps its slices and remove and catches
    conversion errors, this class lets out_of_range escape from right, mid,
    insert and remove, and invalid_argument from fromHexString; the model
    makes these explicit as Err and Thrown results. */
module ByteArrayCap {
  import opened Wrappers
  import opened CharClass
  import opened CaseMap
  import opened StdString
  import opened Trimming
  import opened SplitJoin
  import opened Conversions
  import opened HexCodec

  class ByteArray {
    var data: seq<char>

    /** ByteArray() = default: the empty string. */
    constructor()
      ensures data == []
    {
      data := [];
    }

    /** ByteArray(const std::string&) and ByteArray(const char*). */
    constructor FromString(s: seq<char>)
      ensures data == s
    {
      data := s;
    }

    /** left(len): substr(0, len), which never throws. */
    function Left(len: nat): (r: seq<char>)
      reads this
      ensures |r| == Min(len, |data|) && r == data[..|r|]
    {
      Substr(data, 0, len)
    }

    /** right(len): substr(size() - len). When len exceeds the size the
        unsigned subtraction wraps to a position past the end and substr
        throws out_of_range. */
    function Right(len: nat): (r: Result<seq<char>>)
      reads this
      ensures len > |data| <==> r == Err(OutOfRange)
      ensures r.Ok? ==> |r.value| == len && r.value == data[|data| - len..]
    {
      if len > |data| then Err(OutOfRange)
      else Ok(Substr(data, |data| - len, len))
    }

    /** mid(pos, len): substr(pos, len), which throws out_of_range when pos
        is past the end. */
    function Mid(pos: nat, len: nat): (r: Result<seq<char>>)
      reads this
      ensures pos > |data| <==> r == Err(OutOfRange)
      ensures r.Ok? ==> |r.value| == Min(len, |data| - pos) && r.value == data[pos..pos + |r.value|]
    {
      if pos > |data| then Err(OutOfRange)
      else Ok(Substr(data, pos, len))
    }

    /** startsWith: rfind(str, 0) == 0, the last occurrence starting at or
        before 0 being at 0. */
    function StartsWith(str: seq<char>): (r: bool)
      reads this
      ensures r <==> MatchAt(data, str, 0)
    {
      RFindLast(data, str, 0);
      RFind(data, str, 0) == Some(0)
    }

    /** endsWith: false when str is longer, otherwise compare of the
        trailing str.size() characters with str. */
    function EndsWith(str: seq<char>): (r: bool)
      reads this
      ensures r <==> |str| <= |data| && MatchAt(data, str, |data| - |str|)
    {
      if |str| > |data| then false
      else StdString.Compare(Substr(data, |data| - |str|, |str|), str) == 0
    }

    /** contains: find(str) is not npos. */
    function Contains(str: seq<char>): (r: bool)
      reads this
      ensures r <==> Occurs(data, str)
    {
      FindFirst(data, str, 0);
      Find(data, str, 0) != None
    }

    /** toUpper: a copy with ::toupper applied to each character. */
    function ToUpper(): (r: seq<char>)
      reads this
      ensures |r| == |data|
      ensures forall k :: 0 <= k < |r| ==> r[k] == ToUpperChar(data[k])
    {
      Upper(data)
    }

    /** toLower: a copy with ::tolower applied to each character. */
    function ToLower(): (r: seq<char>)
      reads this
      ensures |r| == |data|
      ensures forall k :: 0 <= k < |r| ==> r[k] == ToLowerChar(data[k])
    {
      Lower(data)
    }

    /** trim: one substr from the first to the last non-whitespace
        character; the same string the other class's trimLeft-then-trimRight
        leaves. */
    function Trim(): (r: seq<char>)
      reads this
      ensures r == Trimming.Trim(data)
    {
      TrimImplementationsAgree(data);
      TrimOnce(data)
    }

    /** append(str): data_ += str. */
    method Append(str: seq<char>)
      modifies this
      ensures data == old(data) + str
    {
      data := data + str;
    }

    /** operator+=(other): appends the other object's string, which may be
        this object's own. */
    method AppendArray(other: ByteArray)
      modifies this
      ensures data == old(data) + old(other.data)
    {
      data := data + other.data;
    }

    /** prepend(str): data_ = str + data_. */
    method Prepend(str: seq<char>)
      modifies this
      ensures data == str + old(data)
    {
      data := str + data;
    }

    /** insert(pos, str): std::string::insert, which throws out_of_range
        when pos is past the end. */
    method Insert(pos: nat, str: seq<char>) returns (o: Outcome)
      modifies this
      ensures pos > |old(data)| ==> o == Thrown(OutOfRange) && data == old(data)
      ensures pos <= |old(data)| ==> o == Done && data == InsertAt(old(data), pos, str)
    {
      if pos > |data| {
        return Thrown(OutOfRange);
      }
      data := InsertAt(data, pos, str);
      return Done;
    }

    /** remove(pos, len): std::string::erase, which throws out_of_range when
        pos is past the end; pos equal to the size erases nothing. */
    method Remove(pos: nat, len: nat) returns (o: Outcome)
      modifies this
      ensures pos > |old(data)| ==> o == Thrown(OutOfRange) && data == old(data)
      ensures pos <= |old(data)| ==> o == Done && data == Erase(old(data), pos, len)
    {
      if pos > |data| {
        return Thrown(OutOfRange);
      }
      data := Erase(data, pos, len);
      return Done;
    }

    /** split(delimiter): one part per std::getline call on a stringstream
        over the string. */
    method SplitChar(delimiter: char) returns (parts: seq<seq<char>>)
      ensures parts == GetlineSplit(data, delimiter)
    {
      var s := data;
      ghost var total := GetlineAt(s, delimiter, 0);
      parts := [];
      var start: nat := 0;
      while start < |s|
        invariant start <= |s|
        invariant parts + GetlineAt(s, delimiter, start) == total
        decreases |s| - start
      {
        var part, next := Getline(s, delimiter, start);
        ConsAssoc(parts, part, GetlineAt(s, delimiter, next));
        parts := parts + [part];
        start := next;
      }
      GetlineLoopDone(s, delimiter, parts);
    }

    /** indexOf(ch): find(ch); None stands for npos. */
    function IndexOfChar(ch: char): (r: Option<nat>)
      reads this
      ensures r.Some? ==> r.value < |data| && data[r.value] == ch
                          && forall j :: 0 <= j < r.value ==> data[j] != ch
      ensures r.None? <==> ch !in data
    {
      var r := Find(data, [ch], 0);
      FindFirst(data, [ch], 0);
      CharMatches(data, ch);
      r
    }

    /** indexOf(str): find(str), the first occurrence. */
    function IndexOf(str: seq<char>): (r: Option<nat>)
      reads this
      ensures r.Some? ==> MatchAt(data, str, r.value)
                          && forall j: nat :: j < r.value ==> !MatchAt(data, str, j)
      ensures r.None? <==> !Occurs(data, str)
    {
      FindFirst(data, str, 0);
      Find(data, str, 0)
    }

    /** lastIndexOf(ch): rfind(ch) from npos, the last occurrence. */
    function LastIndexOfChar(ch: char): (r: Option<nat>)
      reads this
      requires |data| <= NPOS
      ensures r.Some? ==> r.value < |data| && data[r.value] == ch
                          && forall j :: r.value < j < |data| ==> data[j] != ch
      ensures r.None? <==> ch !in data
    {
      var r := RFind(data, [ch], NPOS);
      RFindLast(data, [ch], NPOS);
      CharMatches(data, ch);
      r
    }

    /** toInt(ok): std::stoi, or 0 with *ok false when it throws. */
    function ToInt(): (r: Converted)
      reads this
      ensures r.ok ==> INT_MIN <= r.value <= INT_MAX
      ensures r.ok <==> Stoi(data).Some?
      ensures !r.ok ==> r.value == 0
    {
      Convert(Stoi(data))
    }

    /** number(num, base): empty for a base outside 2..36; otherwise what
        `oss << std::setbase(base) << num` writes, which is unprefixed octal
        or hex for 8 and 16 and decimal for every other base. */
    static function Number(num: Int32, base: int): (r: seq<char>)
      ensures base < 2 || base > 36 <==> r == []
    {
      if base < 2 || base > 36 then []
      else StreamInt(num, if base == 8 || base == 16 then base else 10)
    }

    /** toHexString: two lower-case hex digits per character, zero-padded. */
    method ToHexString() returns (hex: seq<char>)
      ensures hex == HexEncode(data)
    {
      var s := data;
      hex := [];
      var i := 0;
      while i < |s|
        invariant 0 <= i <= |s|
        invariant hex == HexEncode(s[..i])
      {
        assert s[..i + 1] == s[..i] + [s[i]];
        EncodeSnoc(s[..i], s[i]);
        hex := hex + HexByte(s[i]);
        i := i + 1;
      }
      assert s[..i] == s;
    }

    /** fromHexString(hex): empty for an odd length; otherwise a string of
        size/2 characters whose i-th is std::stoi(hex.substr(2i, 2), nullptr,
        16) cast to char. A pair stoi rejects throws invalid_argument out of
        the function. */
    static method FromHexString(hex: seq<char>) returns (r: Result<seq<char>>)
      ensures |hex| % 2 != 0 ==> r == Ok([])
      ensures |hex| % 2 == 0 ==> r == match DecodePairs(hex)
                                      case None => Err(InvalidArgument)
                                      case Some(bytes) => Ok(bytes)
    {
      if |hex| % 2 != 0 {
        return Ok([]);
      }
      var n := |hex| / 2;
      var result := Copies(n, 0 as char);
      var i := 0;
      while i < n
        invariant 0 <= i <= n && |result| == n
        invariant DecodePairs(hex[..i * 2]) == Some(result[..i])
      {
        var parsed := StoiHex(Substr(hex, i * 2, 2));
        PairIndex(i);
        HexLoopStep(hex, i * 2, result[..i], parsed);
        if parsed.None? {
          DecodeFailurePersists(hex, i * 2 + 2);
          return Err(InvalidArgument);
        }
        var c := ByteChar(parsed.value);
        StoreAt(result, i, c);
        result := result[i := c];
        i := i + 1;
      }
      assert hex[..i * 2] == hex;
      assert result[..i] == result;
      return Ok(result);
    }

    /** compare(other, caseSensitive): std::string::compare, on lower-cased
        copies when caseSensitive is false: negative when this string sorts
        first, zero when equal, positive when it sorts after. */
    function Compare(other: ByteArray, caseSensitive: bool): (r: int)
      reads this, other
      ensures -1 <= r <= 1
      ensures caseSensitive ==> (r == 0 <==> data == other.data)
      ensures !caseSensitive ==> (r == 0 <==> Lower(data) == Lower(other.data))
      ensures caseSensitive ==> (r < 0 <==> LexLess(data, other.data)) && (r > 0 <==> LexLess(other.data, data))
      ensures !caseSensitive ==> (r < 0 <==> LexLess(Lower(data), Lower(other.data)))
                                 && (r > 0 <==> LexLess(Lower(other.data), Lower(data)))
    {
      CompareOrder(data, other.data);
      CompareOrder(Lower(data), Lower(other.data));
      if caseSensitive then StdString.Compare(data, other.data)
      else StdString.Compare(Lower(data), Lower(other.data))
    }

    /** fill(ch, size): assign(size, ch), where the default size_t(-1) means
        the current size. */
    method Fill(ch: char, size: nat)
      modifies this
      ensures |data| == if size == NPOS then |old(data)| else size
      ensures forall k :: 0 <= k < |data| ==> data[k] == ch
    {
      var n := if size == NPOS then |data| else size;
      data := Copies(n, ch);
    }

    /** repeated(times): times copies appended one by one; none for
        times <= 0. */
    method Repeated(times: int) returns (result: seq<char>)
      ensures result == Repeat(data, if times <= 0 then 0 else times)
    {
      result := [];
      var i := 0;
      while i < times
        invariant 0 <= i <= Max(times, 0)
        invariant result == Repeat(data, i)
      {
        result := result + data;
        i := i + 1;
      }
    }

    /** join(parts, separator): each part in turn, with the separator
        before every part but the first. */
    static method Join(parts: seq<seq<char>>, separator: seq<char>) returns (result: seq<char>)
      ensures result == JoinWith(parts, separator)
    {
      result := [];
      var i := 0;
      while i < |parts|
        invariant 0 <= i <= |parts|
        invariant result == JoinWith(parts[..i], separator)
      {
        assert parts[..i + 1][..i] == parts[..i];
        if i > 0 {
          result := result + separator;
        }
        result := result + parts[i];
        i := i + 1;
      }
      assert parts[..i] == parts;
    }
  }

  /** left and right cut the string in two, and right or mid fails exactly
      when the length or position runs past the end. */
  lemma {:induction false} SlicesAgree(b: ByteArray, k: nat)
    requires k <= |b.data|
    ensures b.Right(|b.data| - k).Ok? && b.Left(k) + b.Right(|b.data| - k).value == b.data
    ensures b.Mid(k, |b.data|) == b.Right(|b.data| - k)
  {
    assert b.data[..k] + b.data[k..] == b.data;
  }

  /** With a base in 2..36 other than 8 and 16, toInt reads back what
      number(n, base) writes. */
  lemma {:induction false} ToIntOfNumber(b: ByteArray, n: Int32, base: int)
    requires 2 <= base <= 36 && base != 8 && base != 16 && b.data == ByteArray.Number(n, base)
    ensures b.ToInt() == Converted(n, true)
  {
    StoiToString(n);
  }

  /** number(n, 8) and number(n, 16) write the digits of the 32-bit two's
      complement pattern of n, with no prefix. */
  lemma {:induction false} NumberDigits(n: Int32, base: int)
    requires base == 8 || base == 16
    ensures var r := ByteArray.Number(n, base);
            (forall k :: 0 <= k < |r| ==> IsDigitIn(r[k], base) && IsLowerHexDigit(r[k]))
            && (|r| == 1 || r[0] != '0')
            && DigitsValue(r, base) == n % 0x1_0000_0000
  {
    DigitsRoundTrip(n % 0x1_0000_0000, base);
  }

  /** The pair of fromHexString's i-th character starts at an even index,
      and the next pair two characters later. */
  lemma {:induction false} PairIndex(i: nat)
    ensures (i * 2) % 2 == 0 && i * 2 + 2 == (i + 1) * 2
  {
  }

  /** Storing the i-th character of a preallocated string extends its
      written prefix by that character. */
  lemma {:induction false} StoreAt(result: seq<char>, i: nat, c: char)
    requires i < |result|
    ensures |result[i := c]| == |result| && result[i := c][..i + 1] == result[..i] + [c]
  {
  }
}
