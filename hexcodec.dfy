/** The hex text form both ByteArray classes offer: toHexString writes each
    byte as two lower-case hex digits (an ostream in hex mode with width 2
    and fill '0'), and fromHexString reads the text back two characters at
    a time with std::stoi(pair, nullptr, 16). */
module HexCodec {
  import opened Wrappers
  import opened CharClass
  import opened Conversions
  import opened StdString

  /** The two digits written for the byte of c. */
  function HexByte(c: char): (h: seq<char>)
    ensures |h| == 2 && IsLowerHexDigit(h[0]) && IsLowerHexDigit(h[1])
    ensures DigitValue(h[0]) * 16 + DigitValue(h[1]) == ByteOf(c)
  {
    var b := ByteOf(c);
    [DigitChar(b / 16), DigitChar(b % 16)]
  }

  /** toHexString: the digits of every byte, in order. */
  function HexEncode(s: seq<char>): (h: seq<char>)
    ensures |h| == 2 * |s|
    ensures forall k :: 0 <= k < |h| ==> IsLowerHexDigit(h[k])
  {
    if s == [] then [] else HexEncode(s[..|s| - 1]) + HexByte(s[|s| - 1])
  }

  /** The bytes of s as chars: what a byte string holds for s. */
  function Bytes(s: seq<char>): (r: seq<char>)
    ensures |r| == |s|
    ensures forall i :: 0 <= i < |s| ==> r[i] == ByteChar(ByteOf(s[i]))
  {
    seq(|s|, i requires 0 <= i < |s| => ByteChar(ByteOf(s[i])))
  }

  /** A string of byte-sized chars is its own byte string. */
  lemma {:induction false} BytesOfByteString(s: seq<char>)
    requires forall i :: 0 <= i < |s| ==> s[i] as int < 256
    ensures Bytes(s) == s
  {
  }

  /** One pair as fromHexString converts it: the int stoi reads in base 16
      (given by the case table, which PairByteIsStoi proves equal to the
      scan), cast to char; None when stoi throws invalid_argument. */
  function PairByte(a: char, b: char): Option<char> {
    match PairTable(a, b)
    case None => None
    case Some(v) => Some(ByteChar(v))
  }

  /** The pairs of an even-length text decoded in order; None as soon as one
      pair is rejected. */
  function DecodePairs(h: seq<char>): (r: Option<seq<char>>)
    requires |h| % 2 == 0
    ensures r.Some? ==> 2 * |r.value| == |h|
  {
    if h == [] then Some([])
    else
      match DecodePairs(h[..|h| - 2])
      case None => None
      case Some(init) =>
        match PairByte(h[|h| - 2], h[|h| - 1])
        case None => None
        case Some(c) => Some(init + [c])
  }

  /** What stoi in base 16 reads from two characters, case by case: two hex
      digits; a hex digit and then a non-digit, where reading stops after
      the first; a skipped space or '+' and a digit; '-' and a digit, which
      negates; anything else is rejected. */
  function PairTable(a: char, b: char): Option<int> {
    if IsDigitIn(a, 16) then
      if IsDigitIn(b, 16) then Some(DigitValue(a) * 16 + DigitValue(b)) else Some(DigitValue(a))
    else if (IsSpace(a) || a == '+') && IsDigitIn(b, 16) then Some(DigitValue(b))
    else if a == '-' && IsDigitIn(b, 16) then Some(-DigitValue(b))
    else None
  }

  /** stoi over a pair agrees with the case table, for every pair. */
  lemma {:induction false} PairValueTable(a: char, b: char)
    ensures StoiHex([a, b]) == PairTable(a, b)
  {
    if IsDigitIn(a, 16) {
      PairDigitFirst(a, b);
    } else if IsSpace(a) {
      PairSpaceFirst(a, b);
    } else if a == '+' || a == '-' {
      PairSignFirst(a, b);
    } else {
      assert DropSpaces([a, b]) == [a, b];
      assert DigitRun([a, b], 16) == 0;
    }
  }

  /** PairByte is stoi(pair, nullptr, 16) followed by the cast to char. */
  lemma {:induction false} PairByteIsStoi(a: char, b: char)
    ensures PairByte(a, b) == (match StoiHex([a, b]) case None => None case Some(v) => Some(ByteChar(v)))
  {
    PairValueTable(a, b);
  }

  lemma {:induction false} OneDigit(b: char)
    requires IsDigitIn(b, 16)
    ensures ScanMagnitude([b], 16) == Some(DigitValue(b))
  {
    assert DigitRun([b], 16) == 1;
    assert [b][..1] == [b];
    assert DigitsValue([b], 16) == DigitValue(b) by {
      assert [b][..0] == [];
      assert DigitsValue([b], 16) == DigitsValue([], 16) * 16 + DigitValue(b);
    }
  }

  lemma {:induction false} PairDigitFirst(a: char, b: char)
    requires IsDigitIn(a, 16)
    ensures StoiHex([a, b]) == PairTable(a, b)
  {
    var s := [a, b];
    assert DropSpaces(s) == s;
    assert DigitsValue([a], 16) == DigitValue(a) by {
      assert [a][..0] == [];
    }
    if IsDigitIn(b, 16) {
      assert DigitRun(s, 16) == 2;
      assert s[..2] == s && s[..1] == [a];
      assert DigitsValue(s, 16) == DigitValue(a) * 16 + DigitValue(b);
    } else {
      assert DigitRun(s, 16) == 1;
      assert s[..1] == [a];
    }
  }

  lemma {:induction false} PairSpaceFirst(a: char, b: char)
    requires IsSpace(a)
    ensures StoiHex([a, b]) == PairTable(a, b)
  {
    var s := [a, b];
    assert s[1..] == [b];
    assert DropSpaces(s) == DropSpaces([b]);
    assert [b][1..] == [];
    if IsDigitIn(b, 16) {
      assert DropSpaces([b]) == [b];
      OneDigit(b);
    } else if !IsSpace(b) {
      assert DropSpaces([b]) == [b];
    }
  }

  lemma {:induction false} PairSignFirst(a: char, b: char)
    requires a == '+' || a == '-'
    ensures StoiHex([a, b]) == PairTable(a, b)
  {
    var s := [a, b];
    assert DropSpaces(s) == s;
    assert s[1..] == [b];
    if IsDigitIn(b, 16) {
      OneDigit(b);
    }
  }

  /** The lenient cases: " f" and "+f" read 15, "1z" reads 1 (reading stops
      at 'z'), "-f" reads -15 and stores the byte 241, "zz" is rejected. */
  lemma {:induction false} PairLeniency()
    ensures PairByte(' ', 'f') == Some(ByteChar(15))
    ensures PairByte('+', 'f') == Some(ByteChar(15))
    ensures PairByte('1', 'z') == Some(ByteChar(1))
    ensures PairByte('-', 'f') == Some(ByteChar(241)) && ByteChar(241) as int == 241
    ensures PairByte('z', 'z') == None
  {
    assert PairByte(' ', 'f') == Some(ByteChar(15)) by {
      PairValueTable(' ', 'f');
    }
    assert PairByte('+', 'f') == Some(ByteChar(15)) by {
      PairValueTable('+', 'f');
    }
    assert PairByte('1', 'z') == Some(ByteChar(1)) by {
      PairValueTable('1', 'z');
    }
    assert PairByte('-', 'f') == Some(ByteChar(241)) by {
      PairValueTable('-', 'f');
      assert ByteChar(-15) == ByteChar(241);
    }
    assert PairByte('z', 'z') == None by {
      PairValueTable('z', 'z');
    }
  }

  /** The digits written for a byte read back as that byte. */
  lemma {:induction false} PairOfHexByte(c: char)
    ensures PairByte(HexByte(c)[0], HexByte(c)[1]) == Some(ByteChar(ByteOf(c)))
  {
    var h := HexByte(c);
    PairValueTable(h[0], h[1]);
  }

  /** Decoding what toHexString wrote gives back the bytes. */
  lemma {:induction false} DecodeEncode(s: seq<char>)
    ensures DecodePairs(HexEncode(s)) == Some(Bytes(s))
    decreases |s|
  {
    if s != [] {
      var init, last := s[..|s| - 1], s[|s| - 1];
      var hb := HexByte(last);
      assert s == init + [last];
      EncodeSnoc(init, last);
      assert hb == [hb[0], hb[1]];
      DecodeSnoc(HexEncode(init), hb[0], hb[1]);
      DecodeEncode(init);
      PairOfHexByte(last);
      assert Bytes(s) == Bytes(init) + [ByteChar(ByteOf(last))];
    }
  }

  /** For a string of byte-sized characters, fromHexString(toHexString(s))
      is s itself. */
  lemma {:induction false} DecodeEncodeBytes(s: seq<char>)
    requires forall i :: 0 <= i < |s| ==> s[i] as int < 256
    ensures DecodePairs(HexEncode(s)) == Some(s)
  {
    DecodeEncode(s);
    BytesOfByteString(s);
  }

  /** A pair of lower-case hex digits decodes to the byte whose digits
      they are. */
  lemma {:induction false} HexByteOfPair(a: char, b: char)
    requires IsLowerHexDigit(a) && IsLowerHexDigit(b)
    ensures PairByte(a, b).Some? && HexByte(PairByte(a, b).value) == [a, b]
  {
    DigitCharOfValue(a);
    DigitCharOfValue(b);
    PairValueTable(a, b);
    var v := DigitValue(a) * 16 + DigitValue(b);
    assert ByteOf(ByteChar(v)) == v;
    assert v / 16 == DigitValue(a) && v % 16 == DigitValue(b);
  }

  /** Encoding what was decoded from lower-case hex text gives the text. */
  lemma {:induction false} EncodeDecode(h: seq<char>)
    requires |h| % 2 == 0
    requires forall k :: 0 <= k < |h| ==> IsLowerHexDigit(h[k])
    ensures DecodePairs(h).Some? && HexEncode(DecodePairs(h).value) == h
    decreases |h|
  {
    if h != [] {
      var init := h[..|h| - 2];
      EncodeDecode(init);
      assert h == init + [h[|h| - 2], h[|h| - 1]];
      EncodeDecodeStep(init, h[|h| - 2], h[|h| - 1]);
    }
  }

  lemma {:induction false} EncodeDecodeStep(init: seq<char>, a: char, b: char)
    requires |init| % 2 == 0 && IsLowerHexDigit(a) && IsLowerHexDigit(b)
    requires DecodePairs(init).Some? && HexEncode(DecodePairs(init).value) == init
    ensures DecodePairs(init + [a, b]).Some?
    ensures HexEncode(DecodePairs(init + [a, b]).value) == init + [a, b]
  {
    HexByteOfPair(a, b);
    DecodeSnoc(init, a, b);
    EncodeSnoc(DecodePairs(init).value, PairByte(a, b).value);
  }

  lemma {:induction false} DecodeSnoc(h: seq<char>, a: char, b: char)
    requires |h| % 2 == 0
    ensures DecodePairs(h + [a, b]) ==
      match DecodePairs(h)
      case None => None
      case Some(init) =>
        match PairByte(a, b)
        case None => None
        case Some(c) => Some(init + [c])
  {
    var p := h + [a, b];
    assert p[..|p| - 2] == h;
  }

  lemma {:induction false} EncodeSnoc(s: seq<char>, c: char)
    ensures HexEncode(s + [c]) == HexEncode(s) + HexByte(c)
  {
    assert (s + [c])[..|s|] == s;
  }

  /** Once a prefix of pairs fails, the whole text fails. */
  lemma {:induction false} DecodeFailurePersists(h: seq<char>, j: nat)
    requires |h| % 2 == 0 && j % 2 == 0 && j <= |h|
    requires DecodePairs(h[..j]) == None
    ensures DecodePairs(h) == None
    decreases |h|
  {
    if j < |h| {
      var init := h[..|h| - 2];
      assert init[..j] == h[..j];
      DecodeFailurePersists(init, j);
    } else {
      assert h[..j] == h;
    }
  }

  /** One more pair extends the decoded prefix. */
  lemma {:induction false} DecodeStep(h: seq<char>, i: nat)
    requires i % 2 == 0 && i + 2 <= |h|
    ensures DecodePairs(h[..i + 2]) ==
      match DecodePairs(h[..i])
      case None => None
      case Some(init) =>
        match PairByte(h[i], h[i + 1])
        case None => None
        case Some(c) => Some(init + [c])
  {
    var p := h[..i + 2];
    assert p[..|p| - 2] == h[..i];
  }

  /** One pair of fromHexString: std::stoi of the two-character substr
      decides whether the decoded prefix grows by a byte or decoding fails. */
  lemma {:induction false} HexLoopStep(h: seq<char>, i: nat, done: seq<char>, parsed: Option<int>)
    requires i % 2 == 0 && i + 2 <= |h| && DecodePairs(h[..i]) == Some(done)
    requires parsed == StoiHex(Substr(h, i, 2))
    ensures (i + 2) % 2 == 0
    ensures parsed.None? ==> DecodePairs(h[..i + 2]) == None
    ensures parsed.Some? ==> DecodePairs(h[..i + 2]) == Some(done + [ByteChar(parsed.value)])
  {
    assert Substr(h, i, 2) == [h[i], h[i + 1]];
    PairByteIsStoi(h[i], h[i + 1]);
    DecodeStep(h, i);
  }
}
