/**
 The hexadecimal codec of Intra/Program.cs: `ToHexFromUTF8`, which renders
 bytes as lowercase base16 through the chain BitConverter.ToString ->
 Replace("-", "") -> ToLower, and `HexDecode`, which fills a byte array
 pair by pair with `byte.Parse(pair, NumberStyles.HexNumber)`. The secret
 HMAC key travels between the two as a string, so the round trip
 `HexDecode(ToHexFromUTF8(b)) == b` is what makes the revealed key usable.
 */
module HexCodec {
  import opened Wrappers
  import opened Ascii

  newtype byte = b: int | 0 <= b < 256

  const UpperDigits: string := "0123456789ABCDEF"
  const LowerDigits: string := "0123456789abcdef"

  /** The two upper-case digits `BitConverter.ToString` writes for one byte. */
  function UpperPair(b: byte): string
  {
    [UpperDigits[b / 16], UpperDigits[b % 16]]
  }

  /** The lowercase base16 encoding of one byte, high digit first. */
  function LowerPair(b: byte): string
  {
    [LowerDigits[b / 16], LowerDigits[b % 16]]
  }

  /** `BitConverter.ToString(bytes)`: upper-case pairs separated by '-'. */
  function BitConverterToString(bytes: seq<byte>): string
  {
    if bytes == [] then ""
    else if |bytes| == 1 then UpperPair(bytes[0])
    else UpperPair(bytes[0]) + "-" + BitConverterToString(bytes[1..])
  }

  /** `s.Replace(ch.ToString(), "")`: every occurrence of `ch` removed. */
  function RemoveAll(s: string, ch: char): string
  {
    if s == [] then ""
    else (if s[0] == ch then "" else [s[0]]) + RemoveAll(s[1..], ch)
  }

  /** `ToHexFromUTF8`, the expression chain as the source writes it
      (`ToLower` only ever meets hex digits and is modelled on ASCII). */
  function ToHexFromUtf8(bytes: seq<byte>): (r: string)
    ensures r == LowerHex(bytes)
  {
    ChainIsLowerHex(bytes);
    ToLowerAscii(RemoveAll(BitConverterToString(bytes), '-'))
  }

  /** Lowercase base16 (the alphabet of section 8 of RFC 4648, in lower
      case), defined directly: two digits per byte, no separators. */
  function LowerHex(bytes: seq<byte>): (r: string)
    ensures |r| == 2 * |bytes|
    ensures forall i :: 0 <= i < |r| ==> r[i] in LowerDigits
  {
    if bytes == [] then "" else LowerPair(bytes[0]) + LowerHex(bytes[1..])
  }

  lemma {:induction false} RemoveAllAppend(a: string, b: string, ch: char)
    ensures RemoveAll(a + b, ch) == RemoveAll(a, ch) + RemoveAll(b, ch)
  {
    if a == [] {
      assert a + b == b;
    } else {
      assert (a + b)[0] == a[0];
      assert (a + b)[1..] == a[1..] + b;
      RemoveAllAppend(a[1..], b, ch);
    }
  }

  lemma RemoveAllAbsent(s: string, ch: char)
    requires |s| == 2 && s[0] != ch && s[1] != ch
    ensures RemoveAll(s, ch) == s
  {
    assert s[1..][1..] == [];
    assert RemoveAll(s[1..], ch) == [s[1]] + RemoveAll(s[1..][1..], ch);
    assert s == [s[0]] + [s[1]];
  }

  /** The source's chain is lowercase base16: `BitConverter.ToString`
      followed by removing the dashes and lower-casing gives exactly
      `LowerHex`. */
  lemma {:induction false} ChainIsLowerHex(bytes: seq<byte>)
    ensures ToLowerAscii(RemoveAll(BitConverterToString(bytes), '-')) == LowerHex(bytes)
  {
    if bytes != [] {
      var head := UpperPair(bytes[0]);
      HeadIsLowerPair(bytes[0]);
      if |bytes| == 1 {
        assert bytes[1..] == [];
      } else {
        var rest := RemoveAll(BitConverterToString(bytes[1..]), '-');
        DashDropped(head, BitConverterToString(bytes[1..]));
        ChainIsLowerHex(bytes[1..]);
        assert ToLowerAscii(head + rest) == ToLowerAscii(head) + ToLowerAscii(rest);
      }
    }
  }

  /** One upper-case pair holds no dash and lower-cases to the lowercase pair. */
  lemma HeadIsLowerPair(b: byte)
    ensures RemoveAll(UpperPair(b), '-') == UpperPair(b)
    ensures ToLowerAscii(UpperPair(b)) == LowerPair(b)
  {
    RemoveAllAbsent(UpperPair(b), '-');
  }

  /** Removing dashes from `head + "-" + tail`, where `head` has none. */
  lemma DashDropped(head: string, tail: string)
    requires RemoveAll(head, '-') == head
    ensures RemoveAll(head + "-" + tail, '-') == head + RemoveAll(tail, '-')
  {
    var dash: string := "-";
    assert RemoveAll(dash, '-') == "" by {
      assert dash[0] == '-' && dash[1..] == "";
    }
    RemoveAllAppend(head, dash, '-');
    assert RemoveAll(head + dash, '-') == head;
    RemoveAllAppend(head + dash, tail, '-');
  }

  /** Byte `i` of `bytes` is encoded at positions 2i and 2i+1. */
  lemma {:induction false} LowerHexPair(bytes: seq<byte>, i: nat)
    requires i < |bytes|
    ensures LowerHex(bytes)[2 * i..2 * i + 2] == LowerPair(bytes[i])
  {
    if i > 0 {
      LowerHexPair(bytes[1..], i - 1);
      assert LowerHex(bytes)[2 * i..2 * i + 2] == LowerHex(bytes[1..])[2 * (i - 1)..2 * (i - 1) + 2];
    }
  }

  /** The white space .NET's number parsing skips around a number:
      U+0009..U+000D and U+0020. */
  predicate IsParseWhite(ch: char)
  {
    ch == ' ' || '\t' <= ch <= '\r'
  }

  function TrimLeading(s: string): string
  {
    if s != [] && IsParseWhite(s[0]) then TrimLeading(s[1..]) else s
  }

  function TrimTrailing(s: string): string
  {
    if s != [] && IsParseWhite(s[|s| - 1]) then TrimTrailing(s[..|s| - 1]) else s
  }

  /** What is left after the leading white space is a suffix of `s` that
      starts with a character that is not white. */
  lemma {:induction false} TrimLeadingShape(s: string)
    ensures |TrimLeading(s)| <= |s| && TrimLeading(s) == s[|s| - |TrimLeading(s)|..]
    ensures forall i :: 0 <= i < |s| - |TrimLeading(s)| ==> IsParseWhite(s[i])
    ensures TrimLeading(s) != [] ==> !IsParseWhite(TrimLeading(s)[0])
  {
    if s != [] && IsParseWhite(s[0]) {
      var rest := s[1..];
      TrimLeadingShape(rest);
      var r := TrimLeading(rest);
      assert TrimLeading(s) == r;
      assert rest[|rest| - |r|..] == s[|s| - |r|..];
      forall i | 0 <= i < |s| - |r|
        ensures IsParseWhite(s[i])
      {
        if i > 0 {
          assert s[i] == rest[i - 1];
        }
      }
    }
  }

  /** What is left before the trailing white space is a prefix of `s` that
      ends with a character that is not white. */
  lemma {:induction false} TrimTrailingShape(s: string)
    ensures |TrimTrailing(s)| <= |s| && TrimTrailing(s) == s[..|TrimTrailing(s)|]
    ensures forall i :: |TrimTrailing(s)| <= i < |s| ==> IsParseWhite(s[i])
    ensures TrimTrailing(s) != [] ==> !IsParseWhite(TrimTrailing(s)[|TrimTrailing(s)| - 1])
  {
    if s != [] && IsParseWhite(s[|s| - 1]) {
      var rest := s[..|s| - 1];
      TrimTrailingShape(rest);
      var r := TrimTrailing(rest);
      assert TrimTrailing(s) == r;
      assert rest[..|r|] == s[..|r|];
      forall i | |r| <= i < |s|
        ensures IsParseWhite(s[i])
      {
        if i < |s| - 1 {
          assert s[i] == rest[i];
        }
      }
    }
  }

  /** The value of one hex digit of either case, if it is one. */
  function DigitValue(ch: char): Option<nat>
  {
    if '0' <= ch <= '9' then Some(ch as int - '0' as int)
    else if 'a' <= ch <= 'f' then Some(ch as int - 'a' as int + 10)
    else if 'A' <= ch <= 'F' then Some(ch as int - 'A' as int + 10)
    else None
  }

  /** The value of a run of hex digits, most significant first. */
  function DigitsValue(s: string): Option<nat>
  {
    if s == [] then Some(0)
    else
      match (DigitsValue(s[..|s| - 1]), DigitValue(s[|s| - 1]))
      case (Some(high), Some(low)) => Some(16 * high + low)
      case _ => None
  }

  /** `byte.Parse(s, NumberStyles.HexNumber)`: leading and trailing white
      space allowed, then at least one hex digit and nothing else; a value
      above 255 overflows. `None` stands for the exception thrown. */
  function ParseHexByte(s: string): (r: Option<byte>)
    ensures |s| == 2 && DigitValue(s[0]).Some? && DigitValue(s[1]).Some? ==>
              r == Some((16 * DigitValue(s[0]).value + DigitValue(s[1]).value) as byte)
  {
    TwoDigits(s);
    var digits := TrimTrailing(TrimLeading(s));
    if digits == [] then None
    else
      match DigitsValue(digits)
      case Some(v) => if v < 256 then Some(v as byte) else None
      case None => None
  }

  /** Two hex digits are not white space, so nothing is trimmed, and their
      value is high * 16 + low. */
  lemma TwoDigits(s: string)
    ensures |s| == 2 && DigitValue(s[0]).Some? && DigitValue(s[1]).Some? ==>
              TrimTrailing(TrimLeading(s)) == s
              && DigitsValue(s) == Some(16 * DigitValue(s[0]).value + DigitValue(s[1]).value)
  {
    if |s| == 2 && DigitValue(s[0]).Some? && DigitValue(s[1]).Some? {
      assert !IsParseWhite(s[0]) && !IsParseWhite(s[1]);
      assert TrimLeading(s) == s;
      assert TrimTrailing(s) == s;
      var first := s[..1];
      assert first[..0] == [] && first[0] == s[0];
      assert DigitsValue(first[..0]) == Some(0);
      assert DigitsValue(first) == Some(DigitValue(s[0]).value);
      assert s[..|s| - 1] == first && s[|s| - 1] == s[1];
    }
  }

  /** A string of white space only, the empty string included, throws. */
  lemma ParseRejectsBlank(s: string)
    requires forall i :: 0 <= i < |s| ==> IsParseWhite(s[i])
    ensures ParseHexByte(s).None?
  {
    BlankTrimsAway(s);
  }

  /** Trimming a string of white space only leaves nothing. */
  lemma {:induction false} BlankTrimsAway(s: string)
    requires forall i :: 0 <= i < |s| ==> IsParseWhite(s[i])
    ensures TrimLeading(s) == []
  {
    if s != [] {
      assert IsParseWhite(s[0]);
      var rest := s[1..];
      assert forall i :: 0 <= i < |rest| ==> rest[i] == s[i + 1];
      BlankTrimsAway(rest);
    }
  }

  /** A run that holds a character which is not a hex digit has no value. */
  lemma {:induction false} DigitsValueRejects(d: string, j: nat)
    requires j < |d| && DigitValue(d[j]).None?
    ensures DigitsValue(d).None?
  {
    if j < |d| - 1 {
      DigitsValueRejects(d[..|d| - 1], j);
    }
  }

  /** A character that is neither white space nor a hex digit, anywhere in
      the string, makes `byte.Parse` throw. */
  lemma ParseRejectsStrayChar(s: string, i: nat)
    requires i < |s| && DigitValue(s[i]).None? && !IsParseWhite(s[i])
    ensures ParseHexByte(s).None?
  {
    var t := TrimLeading(s);
    var d := TrimTrailing(t);
    TrimLeadingShape(s);
    TrimTrailingShape(t);
    var j := i - (|s| - |t|);
    assert 0 <= j < |t| && t[j] == s[i];
    assert j < |d| && d[j] == s[i];
    DigitsValueRejects(d, j);
  }

  /** The two characters `hex.Substring(i * 2, 2)` picks. */
  function Pair(hex: string, i: nat): string
    requires 2 * i + 2 <= |hex|
  {
    hex[2 * i..2 * i + 2]
  }

  /** The value `byte.Parse` gives pair `i`, or 0 where it throws. */
  function PairValue(hex: string, i: nat): byte
    requires 2 * i + 2 <= |hex|
  {
    match ParseHexByte(Pair(hex, i))
    case Some(b) => b
    case None => 0
  }

  /** What `HexDecode` computes: `|hex| / 2` bytes, one per pair (an odd
      last character is never looked at), or an exception if some pair does
      not parse. */
  function Decoded(hex: string): (r: Option<seq<byte>>)
    ensures r.Some? ==> |r.value| == |hex| / 2
    ensures r.Some? ==> forall i :: 0 <= i < |hex| / 2 ==> ParseHexByte(Pair(hex, i)) == Some(r.value[i])
    ensures r.None? ==> exists i :: 0 <= i < |hex| / 2 && ParseHexByte(Pair(hex, i)).None?
  {
    if forall i :: 0 <= i < |hex| / 2 ==> ParseHexByte(Pair(hex, i)).Some?
    then Some(seq(|hex| / 2, i requires 0 <= i < |hex| / 2 => PairValue(hex, i)))
    else None
  }

  /** `HexDecode`: allocates `hex.Length / 2` bytes and parses them pair by
      pair; a pair that does not parse throws out of the loop. */
  method HexDecode(hex: string) returns (r: Option<seq<byte>>)
    ensures r == Decoded(hex)
  {
    var bytes := new byte[|hex| / 2];
    for i := 0 to bytes.Length
      invariant forall j :: 0 <= j < i ==> ParseHexByte(Pair(hex, j)) == Some(bytes[j])
    {
      var parsed := ParseHexByte(Pair(hex, i));
      if parsed.None? {
        DecodedFailsOnBadPair(hex, i);
        return None;
      }
      bytes[i] := parsed.value;
      assert ParseHexByte(Pair(hex, i)) == Some(bytes[i]);
    }
    DecodedAllPairs(hex, bytes[..]);
    r := Some(bytes[..]);
  }

  /** A pair that is not a byte in hex makes the whole decode fail. */
  lemma DecodedFailsOnBadPair(hex: string, i: nat)
    requires 2 * i + 2 <= |hex| && ParseHexByte(Pair(hex, i)).None?
    ensures Decoded(hex).None?
  {
  }

  /** Bytes that every pair parses to are what the decode gives. */
  lemma DecodedAllPairs(hex: string, bytes: seq<byte>)
    requires |bytes| == |hex| / 2
    requires forall j :: 0 <= j < |bytes| ==> ParseHexByte(Pair(hex, j)) == Some(bytes[j])
    ensures Decoded(hex) == Some(bytes)
  {
    assert forall j :: 0 <= j < |bytes| ==> bytes[j] == PairValue(hex, j);
    assert bytes == seq(|hex| / 2, i requires 0 <= i < |hex| / 2 => PairValue(hex, i));
  }

  /** A trailing odd character is silently ignored. */
  lemma DecodedIgnoresOddTail(hex: string, ch: char)
    requires |hex| % 2 == 0
    ensures Decoded(hex + [ch]) == Decoded(hex)
  {
    var longer := hex + [ch];
    assert |longer| / 2 == |hex| / 2;
    forall i | 0 <= i < |hex| / 2
      ensures Pair(longer, i) == Pair(hex, i) && PairValue(longer, i) == PairValue(hex, i)
    {
      assert Pair(longer, i) == Pair(hex, i);
    }
    assert seq(|longer| / 2, i requires 0 <= i < |longer| / 2 => PairValue(longer, i))
        == seq(|hex| / 2, i requires 0 <= i < |hex| / 2 => PairValue(hex, i));
  }

  /** The number styles allow white space around the digits, so a pair of
      one white-space character and one hex digit, in either order, is
      accepted as that single digit. */
  lemma WhiteSpaceInPairIsAccepted(w: char, d: char)
    requires IsParseWhite(w) && DigitValue(d).Some?
    ensures ParseHexByte([w, d]) == Some(DigitValue(d).value as byte)
    ensures ParseHexByte([d, w]) == Some(DigitValue(d).value as byte)
  {
    assert !IsParseWhite(d);
    assert DigitsValue([d]) == Some(DigitValue(d).value) by { assert [d][..0] == []; }
    assert TrimLeading([w, d]) == [d] by { assert [w, d][1..] == [d]; }
    assert TrimTrailing([d, w]) == [d] by { assert [d, w][..1] == [d]; }
  }

  /** Parsing the two lowercase digits of a byte gives the byte back. */
  lemma ParseLowerPair(b: byte)
    ensures ParseHexByte(LowerPair(b)) == Some(b)
  {
    var p := LowerPair(b);
    LowerDigitValue(b / 16);
    LowerDigitValue(b % 16);
    assert |p| == 2 && DigitValue(p[0]) == Some((b / 16) as nat) && DigitValue(p[1]) == Some((b % 16) as nat);
    assert 16 * (b / 16) as int + (b % 16) as int == b as int;
  }

  lemma LowerDigitValue(d: byte)
    requires d < 16
    ensures DigitValue(LowerDigits[d]) == Some(d as nat)
  {
  }

  /** Decoding lowercase base16 gives the bytes back. */
  lemma DecodeLowerHex(bytes: seq<byte>)
    ensures Decoded(LowerHex(bytes)) == Some(bytes)
  {
    var hex := LowerHex(bytes);
    assert |hex| / 2 == |bytes|;
    forall i | 0 <= i < |bytes|
      ensures ParseHexByte(Pair(hex, i)) == Some(bytes[i])
      ensures PairValue(hex, i) == bytes[i]
    {
      LowerHexPair(bytes, i);
      ParseLowerPair(bytes[i]);
    }
    var decoded := seq(|hex| / 2, i requires 0 <= i < |hex| / 2 => PairValue(hex, i));
    assert decoded == bytes;
  }

  /** The round trip of the secret key: what `ToHexFromUTF8` prints,
      `HexDecode` turns back into the same bytes. */
  lemma HexRoundTrip(bytes: seq<byte>)
    ensures Decoded(ToHexFromUtf8(bytes)) == Some(bytes)
  {
    DecodeLowerHex(bytes);
  }

  /** Every lowercase base16 string decodes to the bytes it encodes. */
  lemma DecodeLowerHexAll()
    ensures forall k :: Decoded(LowerHex(k)) == Some(k)
  {
    forall k {
      DecodeLowerHex(k);
    }
  }

  /** Different bytes print as different strings, so comparing the printed
      HMACs compares the HMACs themselves. */
  lemma ToHexFromUtf8Injective(a: seq<byte>, b: seq<byte>)
    requires ToHexFromUtf8(a) == ToHexFromUtf8(b)
    ensures a == b
  {
    HexRoundTrip(a);
    HexRoundTrip(b);
  }
}
