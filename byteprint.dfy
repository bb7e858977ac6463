/** The byte-formatting helpers of byteprint.py: chunking, hex and decimal
    renderings of bytes and integers, MAC, IPv4 and IPv6 addresses, and the
    hex dump. Each rendering is paired with a reading function (HexValue,
    DecValue, Split) and proved to give the bytes back. */
module BytePrint {
  import opened Common
  import opened Text

  /** The ValueError the helpers raise, with its message. */
  datatype FormatError = ValueError(message: string)

  // ---------------------------------------------------------------- chunks

  /** `chunks(seq, size)` for a positive size: consecutive slices of `size`
      elements, the last one possibly shorter. */
  function Chunks<T>(s: seq<T>, size: nat): (r: seq<seq<T>>)
    requires size > 0
    ensures forall i :: 0 <= i < |r| ==> 0 < |r[i]| <= size
    ensures forall i :: 0 <= i < |r| - 1 ==> |r[i]| == size
    decreases |s|
  {
    if s == [] then []
    else if |s| <= size then [s]
    else
      var rest := Chunks(s[size..], size);
      assert ([s[..size]] + rest)[1..] == rest;
      [s[..size]] + rest
  }

  /** The chunks concatenate back to the sequence. */
  lemma {:induction false} ChunksJoin<T>(s: seq<T>, size: nat)
    requires size > 0
    ensures Flatten(Chunks(s, size)) == s
    decreases |s|
  {
    var cs := Chunks(s, size);
    if |s| > size {
      ChunksUnfold(s, size);
      ChunksJoin(s[size..], size);
      assert cs[1..] == Chunks(s[size..], size);
      assert s == s[..size] + s[size..];
    } else if s != [] {
      ChunksShort(s, size);
      assert cs == [s];
      assert cs[1..] == [];
    }
  }

  /** A sequence longer than one chunk starts with a full chunk. */
  lemma ChunksUnfold<T>(s: seq<T>, size: nat)
    requires size > 0 && |s| > size
    ensures Chunks(s, size) == [s[..size]] + Chunks(s[size..], size)
  {
  }

  /** At most one chunk for a sequence no longer than one chunk. */
  lemma ChunksShort<T>(s: seq<T>, size: nat)
    requires size > 0 && |s| <= size
    ensures |Chunks(s, size)| == if s == [] then 0 else 1
    ensures s != [] ==> Chunks(s, size)[0] == s
  {
  }

  /** There are ceil(|s| / size) chunks: one fewer would not hold s, and
      these do. */
  lemma {:induction false} ChunkCount<T>(s: seq<T>, size: nat)
    requires size > 0
    ensures (|Chunks(s, size)| - 1) * size < |s| <= |Chunks(s, size)| * size
    decreases |s|
  {
    var n := |Chunks(s, size)|;
    if |s| > size {
      var m := |Chunks(s[size..], size)|;
      assert n == m + 1 by {
        ChunksUnfold(s, size);
      }
      ChunkCount(s[size..], size);
      Times(m, size);
      Times(m - 1, size);
    } else {
      ChunksShort(s, size);
      Times(0, size);
      Times(-1, size);
    }
  }

  /** Chunk i is the slice from i*size of length size, clipped to the end. */
  lemma ChunkAt<T>(s: seq<T>, size: nat, i: nat)
    requires size > 0 && i < |Chunks(s, size)|
    ensures i * size < |s|
    ensures var lo := i * size;
      Chunks(s, size)[i] == s[lo .. if lo + size <= |s| then lo + size else |s|]
  {
    var lo := ChunkOffset(s, size, i);
  }

  /** Where chunk i starts, found by walking the chunks one at a time. */
  lemma {:induction false} ChunkOffset<T>(s: seq<T>, size: nat, i: nat) returns (lo: nat)
    requires size > 0 && i < |Chunks(s, size)|
    ensures lo == i * size && lo < |s|
    ensures Chunks(s, size)[i] == s[lo .. if lo + size <= |s| then lo + size else |s|]
    decreases i
  {
    if i > 0 {
      var rest := s[size..];
      assert |s| > size by {
        if |s| <= size {
          ChunksShort(s, size);
        }
      }
      assert Chunks(s, size)[i] == Chunks(rest, size)[i - 1] by {
        ChunksUnfold(s, size);
      }
      var p := ChunkOffset(rest, size, i - 1);
      var e := if p + size <= |rest| then p + size else |rest|;
      lo := p + size;
      assert lo == i * size by {
        Times(i - 1, size);
      }
      assert |rest| + size == |s|;
      assert size + e == if lo + size <= |s| then lo + size else |s|;
      assert Chunks(s, size)[i] == rest[p..e];
      SliceShift(s, size, p, e);
    } else {
      lo := 0;
      if |s| > size {
        ChunksUnfold(s, size);
        assert Chunks(s, size)[0] == s[..size];
      } else {
        ChunksShort(s, size);
        assert Chunks(s, size)[0] == s[0..|s|];
      }
    }
  }

  lemma SliceShift<T>(s: seq<T>, k: nat, lo: nat, hi: nat)
    requires k <= |s| && lo <= hi <= |s| - k
    ensures s[k..][lo..hi] == s[k + lo..k + hi]
  {
  }

  // ---------------------------------------------------------------- digits

  predicate IsHexDigit(c: char)
  {
    '0' <= c <= '9' || 'a' <= c <= 'f' || 'A' <= c <= 'F'
  }

  predicate IsUpperHex(s: string)
  {
    forall i :: 0 <= i < |s| ==> '0' <= s[i] <= '9' || 'A' <= s[i] <= 'F'
  }

  function DigitValue(c: char): (d: nat)
    requires IsHexDigit(c)
    ensures d < 16
  {
    if '0' <= c <= '9' then c as int - '0' as int
    else if 'a' <= c <= 'f' then c as int - 'a' as int + 10
    else c as int - 'A' as int + 10
  }

  /** The number a string of hex digits denotes, most significant first. */
  function HexValue(s: string): nat
    requires forall i :: 0 <= i < |s| ==> IsHexDigit(s[i])
    decreases |s|
  {
    if s == [] then 0 else HexValue(s[..|s| - 1]) * 16 + DigitValue(s[|s| - 1])
  }

  /** The number a string of decimal digits denotes. */
  function DecValue(s: string): nat
    requires forall i :: 0 <= i < |s| ==> '0' <= s[i] <= '9'
    decreases |s|
  {
    if s == [] then 0 else DecValue(s[..|s| - 1]) * 10 + (s[|s| - 1] as int - '0' as int)
  }

  /** A lower-case hex digit, as Python's 'x' format writes it. */
  function LowerDigit(d: nat): (c: char)
    requires d < 16
    ensures IsHexDigit(c) && DigitValue(c) == d && c != 'x'
    ensures '0' <= c <= '9' || 'a' <= c <= 'f'
  {
    if d < 10 then ('0' as int + d) as char else ('a' as int + d - 10) as char
  }

  /** `str.upper()` on ASCII letters. */
  function UpperChar(c: char): char
  {
    if 'a' <= c <= 'z' then (c as int - 32) as char else c
  }

  function Upper(s: string): string
  {
    seq(|s|, i requires 0 <= i < |s| => UpperChar(s[i]))
  }

  /** `'{:02x}'.format(b)`. */
  function Hex2(b: byte): (s: string)
    ensures |s| == 2 && forall i :: 0 <= i < 2 ==> IsHexDigit(s[i])
  {
    [LowerDigit(b / 16), LowerDigit(b % 16)]
  }

  /** The digits of `hex(v)` for v >= 0: lower case, no leading zero, "0" for 0. */
  function Digits(v: nat): (s: string)
    ensures |s| >= 1 && forall i :: 0 <= i < |s| ==> IsHexDigit(s[i]) && s[i] != 'x'
    ensures forall i :: 0 <= i < |s| ==> '0' <= s[i] <= '9' || 'a' <= s[i] <= 'f'
    decreases v
  {
    if v < 16 then [LowerDigit(v)] else Digits(v / 16) + [LowerDigit(v % 16)]
  }

  /** `str(v)` for v >= 0. */
  function Decimal(v: nat): (s: string)
    ensures |s| >= 1 && forall i :: 0 <= i < |s| ==> '0' <= s[i] <= '9'
    decreases v
  {
    if v < 10 then [('0' as int + v) as char] else Decimal(v / 10) + [('0' as int + v % 10) as char]
  }

  /** Reading back the hex digits gives the number. */
  lemma {:induction false} DigitsValue(v: nat)
    ensures HexValue(Digits(v)) == v
    ensures v > 0 ==> Digits(v)[0] != '0'
    decreases v
  {
    if v >= 16 {
      DigitsValue(v / 16);
      var d := Digits(v);
      assert d[..|d| - 1] == Digits(v / 16);
    }
  }

  /** Reading back the decimal digits gives the number, and a byte takes one
      to three digits. */
  lemma {:induction false} DecimalValue(v: nat)
    ensures DecValue(Decimal(v)) == v
    ensures v < 10 ==> |Decimal(v)| == 1
    ensures 10 <= v < 100 ==> |Decimal(v)| == 2
    ensures 100 <= v < 1000 ==> |Decimal(v)| == 3
    decreases v
  {
    if v >= 10 {
      DecimalValue(v / 10);
      var d := Decimal(v);
      assert d[..|d| - 1] == Decimal(v / 10);
    }
  }

  /** Upper-casing hex digits keeps their value. */
  lemma {:induction false} UpperValue(s: string)
    requires forall i :: 0 <= i < |s| ==> IsHexDigit(s[i])
    ensures IsUpperHex(Upper(s))
    ensures forall i :: 0 <= i < |s| ==> IsHexDigit(Upper(s)[i])
    ensures HexValue(Upper(s)) == HexValue(s)
    decreases |s|
  {
    if s != [] {
      UpperValue(s[..|s| - 1]);
      assert Upper(s)[..|s| - 1] == Upper(s[..|s| - 1]);
    }
  }

  /** Leading zeros do not change a hex value. */
  lemma {:induction false} ZerosValue(n: nat, s: string)
    requires forall i :: 0 <= i < |s| ==> IsHexDigit(s[i])
    ensures forall i :: 0 <= i < |Zeros(n) + s| ==> IsHexDigit((Zeros(n) + s)[i])
    ensures HexValue(Zeros(n) + s) == HexValue(s)
    decreases |s|, n
  {
    var z := Zeros(n) + s;
    if s != [] {
      ZerosValue(n, s[..|s| - 1]);
      assert z[..|z| - 1] == Zeros(n) + s[..|s| - 1];
    } else if n > 0 {
      ZerosValue(n - 1, s);
      assert z[..|z| - 1] == Zeros(n - 1) + s;
    }
  }

  /** An upper-case byte pair reads back as the byte. */
  lemma PairValue(b: byte)
    ensures |Upper(Hex2(b))| == 2 && IsUpperHex(Upper(Hex2(b)))
    ensures forall i :: 0 <= i < 2 ==> IsHexDigit(Upper(Hex2(b))[i])
    ensures HexValue(Upper(Hex2(b))) == b
  {
    var h := Hex2(b);
    UpperValue(h);
    assert h[..1][..0] == [];
    assert HexValue(h[..1]) == DigitValue(h[0]);
    assert HexValue(h) == (b / 16) * 16 + b % 16;
  }

  function Zeros(n: nat): (z: string)
    ensures |z| == n && forall i :: 0 <= i < n ==> z[i] == '0'
  {
    seq(n, _ => '0')
  }

  // ---------------------------------------------------------------- byte strings

  /** `map('{:02x}'.format, bs)`. */
  function Pairs(bs: seq<byte>): (ps: seq<string>)
    ensures |ps| == |bs|
  {
    seq(|bs|, i requires 0 <= i < |bs| => Hex2(bs[i]))
  }

  /** The groups a byte string is made of: one upper-case pair per byte. */
  function UpperPairs(bs: seq<byte>): (ps: seq<string>)
    ensures |ps| == |bs|
  {
    seq(|bs|, i requires 0 <= i < |bs| => Upper(Hex2(bs[i])))
  }

  /** `sep.join(map('{:02x}'.format, bs)).upper()`: the separator is upper-cased too. */
  function ByteStr(bs: seq<byte>, sep: string): string
  {
    Upper(Join(Pairs(bs), sep))
  }

  lemma UpperAppend(a: string, b: string)
    ensures Upper(a + b) == Upper(a) + Upper(b)
  {
    assert forall k :: 0 <= k < |a + b| ==> Upper(a + b)[k] == (Upper(a) + Upper(b))[k];
  }

  lemma {:induction false} UpperJoin(bs: seq<byte>, sep: string)
    ensures Upper(Join(Pairs(bs), sep)) == Join(UpperPairs(bs), Upper(sep))
    decreases |bs|
  {
    if |bs| > 1 {
      UpperJoin(bs[1..], sep);
      assert Pairs(bs)[1..] == Pairs(bs[1..]);
      assert UpperPairs(bs)[1..] == UpperPairs(bs[1..]);
      UpperAppend(Hex2(bs[0]), sep);
      UpperAppend(Hex2(bs[0]) + sep, Join(Pairs(bs[1..]), sep));
    }
  }

  /** A byte string is one upper-case two-digit group per byte, each reading
      back as its byte, joined by the upper-cased separator. */
  lemma ByteStrGroups(bs: seq<byte>, sep: string)
    ensures ByteStr(bs, sep) == Join(UpperPairs(bs), Upper(sep))
    ensures forall i :: 0 <= i < |bs| ==>
              |UpperPairs(bs)[i]| == 2 && IsUpperHex(UpperPairs(bs)[i])
              && (forall k :: 0 <= k < 2 ==> IsHexDigit(UpperPairs(bs)[i][k]))
              && HexValue(UpperPairs(bs)[i]) == bs[i]
    ensures |bs| >= 1 ==> |ByteStr(bs, sep)| == 2 * |bs| + (|bs| - 1) * |sep|
  {
    UpperJoin(bs, sep);
    PairsValue(bs);
    if |bs| >= 1 {
      var ps, up := UpperPairs(bs), Upper(sep);
      assert |Join(ps, up)| == |ps| * 2 + (|ps| - 1) * |up| by {
        JoinLength(ps, up, 2);
      }
      assert |up| == |sep| && |ps| == |bs|;
    }
  }

  /** Each upper-case pair is two hex digits reading back as its byte. */
  lemma PairsValue(bs: seq<byte>)
    ensures forall i :: 0 <= i < |bs| ==>
              |UpperPairs(bs)[i]| == 2 && IsUpperHex(UpperPairs(bs)[i])
              && (forall k :: 0 <= k < 2 ==> IsHexDigit(UpperPairs(bs)[i][k]))
              && HexValue(UpperPairs(bs)[i]) == bs[i]
  {
    forall i | 0 <= i < |bs|
      ensures |UpperPairs(bs)[i]| == 2 && IsUpperHex(UpperPairs(bs)[i])
      ensures forall k :: 0 <= k < 2 ==> IsHexDigit(UpperPairs(bs)[i][k])
      ensures HexValue(UpperPairs(bs)[i]) == bs[i]
    {
      assert UpperPairs(bs)[i] == Upper(Hex2(bs[i]));
      PairValue(bs[i]);
    }
  }

  /** A character that upper-cases to no hex digit. */
  predicate Separator(c: char)
  {
    !('0' <= UpperChar(c) <= '9' || 'A' <= UpperChar(c) <= 'F')
  }

  /** Splitting a byte string at its one-character separator gives the groups back. */
  lemma ByteStrSplit(bs: seq<byte>, c: char)
    requires |bs| >= 1 && Separator(c)
    ensures Split(ByteStr(bs, [c]), UpperChar(c)) == UpperPairs(bs)
  {
    ByteStrGroups(bs, [c]);
    assert Upper([c]) == [UpperChar(c)];
    SplitJoin(UpperPairs(bs), UpperChar(c));
  }

  /** The values `get_bytes_str` accepts: an int or a bytes object. */
  datatype Printable = Number(v: int) | Octets(bs: seq<byte>)

  /** `bs[0:m]` with Python's reading of a negative bound (counted from the end). */
  function PrefixSlice(bs: seq<byte>, m: int): seq<byte>
  {
    if m >= |bs| then bs
    else if m >= 0 then bs[..m]
    else if |bs| + m > 0 then bs[..|bs| + m]
    else []
  }

  /** `get_bytes_str(x, max_length, sep)`. */
  function GetBytesStr(x: Printable, maxLength: Option<int>, sep: string): (r: string)
    ensures x.Number? ==> |r| >= 2 && r[..2] == "0x"
    ensures x.Octets? && maxLength.Some? && maxLength.value < |x.bs| ==> |r| >= 3 && r[|r| - 3..] == "..."
  {
    match x
    case Number(v) => ToHexedInt(v, None)
    case Octets(bs) =>
      if maxLength.None? || |bs| <= maxLength.value then ByteStr(bs, sep)
      else ByteStr(PrefixSlice(bs, maxLength.value), sep) + "..."
  }

  /** Bytes within the limit render as one group per byte; longer ones render
      their first max_length bytes followed by "...". */
  lemma GetBytesStrOctets(bs: seq<byte>, maxLength: Option<int>, sep: string)
    ensures maxLength.None? || |bs| <= maxLength.value ==>
              GetBytesStr(Octets(bs), maxLength, sep) == Join(UpperPairs(bs), Upper(sep))
    ensures maxLength.Some? && 0 <= maxLength.value < |bs| ==>
              var r := GetBytesStr(Octets(bs), maxLength, sep);
              |r| >= 3 && r[|r| - 3..] == "..."
              && r[..|r| - 3] == Join(UpperPairs(bs[..maxLength.value]), Upper(sep))
  {
    if maxLength.None? || |bs| <= maxLength.value {
      ByteStrGroups(bs, sep);
    } else if 0 <= maxLength.value {
      var body := ByteStr(bs[..maxLength.value], sep);
      assert body == Join(UpperPairs(bs[..maxLength.value]), Upper(sep)) by {
        ByteStrGroups(bs[..maxLength.value], sep);
      }
      var r := GetBytesStr(Octets(bs), maxLength, sep);
      assert r == body + "...";
      assert r[..|r| - 3] == body;
    }
  }

  // ---------------------------------------------------------------- hexed ints

  /** `s.lstrip(chars)`. */
  function LStrip(s: string, chars: set<char>): (r: string)
    ensures |r| <= |s| && (r != [] ==> r[0] !in chars)
    decreases |s|
  {
    if s != [] && s[0] in chars then LStrip(s[1..], chars) else s
  }

  /** What is left after stripping is a suffix of the input that does not
      start with a stripped character, and every character stripped from the
      front is one of `chars`. */
  lemma {:induction false} LStripSuffix(s: string, chars: set<char>)
    ensures var r := LStrip(s, chars);
      |r| <= |s| && r == s[|s| - |r|..] && (r != [] ==> r[0] !in chars)
    ensures forall i :: 0 <= i < |s| - |LStrip(s, chars)| ==> s[i] in chars
    decreases |s|
  {
    if s != [] && s[0] in chars {
      LStripSuffix(s[1..], chars);
      var r := LStrip(s, chars);
      assert s[1..][|s| - 1 - |r|..] == s[|s| - |r|..];
      forall i | 1 <= i < |s| - |r|
        ensures s[i] in chars
      {
        assert s[1..][i - 1] == s[i];
      }
    }
  }

  /** `hex(v)`. */
  function PyHex(v: int): string
  {
    if v < 0 then "-0x" + Digits(-v) else "0x" + Digits(v)
  }

  /** `s.zfill(width)`: zeros on the left up to width, after a leading sign. */
  function ZFill(s: string, width: int): (r: string)
    ensures |r| == if |s| >= width then |s| else width
  {
    if |s| >= width then s
    else if s != [] && (s[0] == '+' || s[0] == '-') then [s[0]] + Zeros(width - |s|) + s[1..]
    else Zeros(width - |s|) + s
  }

  /** The digits of `to_hexed_int` before upper-casing:
      `hex(v).lstrip('0x')`, zero-filled to `length` when one is given. */
  function HexBody(v: int, length: Option<int>): string
  {
    var digits := LStrip(PyHex(v), {'0', 'x'});
    if length.None? then digits else ZFill(digits, length.value)
  }

  /** `to_hexed_int(v, length)`. */
  function ToHexedInt(v: int, length: Option<int>): (r: string)
    ensures |r| >= 2 && r[..2] == "0x"
  {
    "0x" + Upper(HexBody(v, length))
  }

  /** For v >= 0, stripping '0' and 'x' from `hex(v)` leaves its digits,
      and nothing at all for 0. */
  lemma StrippedHex(v: nat)
    ensures LStrip(PyHex(v), {'0', 'x'}) == if v == 0 then "" else Digits(v)
  {
    var d := Digits(v);
    var chars := {'0', 'x'};
    assert PyHex(v) == "0x" + d;
    StrippedPrefix(d);
    assert (v == 0 <==> d == "0") && (v > 0 ==> d[0] != '0') by {
      DigitsValue(v);
    }
    LStripStep(d, chars);
    if v == 0 {
      assert d[1..] == "";
    } else {
      assert d[0] !in chars;
    }
  }

  /** The "0x" in front of some digits is stripped. */
  lemma StrippedPrefix(d: string)
    ensures LStrip("0x" + d, {'0', 'x'}) == LStrip(d, {'0', 'x'})
  {
    var chars := {'0', 'x'};
    var h := "0x" + d;
    var xd := h[1..];
    assert xd == "x" + d && xd[1..] == d;
    LStripStep(h, chars);
    LStripStep(xd, chars);
  }

  /** One leading character from `chars` is stripped, and stripping stops at
      the first character not in `chars`. */
  lemma LStripStep(s: string, chars: set<char>)
    requires s != []
    ensures LStrip(s, chars) == if s[0] in chars then LStrip(s[1..], chars) else s
  {
  }

  /** For v >= 0 the stripped `hex(v)` is hex digits reading back as v, with
      no leading zero or sign, and empty exactly for 0. */
  lemma StrippedValue(v: nat)
    ensures var digits := LStrip(PyHex(v), {'0', 'x'});
      && (forall k :: 0 <= k < |digits| ==> IsHexDigit(digits[k])) && HexValue(digits) == v
      && (v == 0 <==> digits == "")
      && (v > 0 ==> digits[0] != '0' && digits[0] != '-' && digits[0] != '+')
  {
    StrippedHex(v);
    DigitsValue(v);
  }

  /** For v >= 0 the body is hex digits reading back as v: minimal without
      a length (empty for 0), at least `length` long with one. */
  lemma HexBodyValue(v: nat, length: Option<int>)
    ensures var body := HexBody(v, length);
            (forall k :: 0 <= k < |body| ==> IsHexDigit(body[k])) && HexValue(body) == v
    ensures length.None? ==> (v == 0 <==> HexBody(v, length) == "")
    ensures length.None? && v > 0 ==> HexBody(v, length)[0] != '0'
    ensures length.Some? ==> |HexBody(v, length)| >= length.value
  {
    var digits := LStrip(PyHex(v), {'0', 'x'});
    StrippedValue(v);
    var body := HexBody(v, length);
    if length.None? || |digits| >= length.value {
      assert body == digits;
    } else {
      var pad := length.value - |digits|;
      assert body == ZFill(digits, length.value);
      assert !(digits != [] && (digits[0] == '+' || digits[0] == '-'));
      assert ZFill(digits, length.value) == Zeros(pad) + digits;
      ZerosValue(pad, digits);
    }
  }

  /** `to_hexed_int` of v >= 0: "0x", then upper-case hex digits reading back
      as v; without a length they have no leading zero, and 0 renders as
      "0x"; with a length there are at least that many. */
  lemma HexedIntValue(v: nat, length: Option<int>)
    ensures var r := ToHexedInt(v, length);
            |r| >= 2 && r[..2] == "0x" && IsUpperHex(r[2..])
            && (forall k :: 0 <= k < |r[2..]| ==> IsHexDigit(r[2..][k]))
            && HexValue(r[2..]) == v
    ensures length.None? ==> var r := ToHexedInt(v, length);
            (v == 0 <==> r == "0x") && (v > 0 ==> r[2] != '0')
    ensures length.Some? ==> |ToHexedInt(v, length)| - 2 >= length.value
  {
    var body := HexBody(v, length);
    HexBodyValue(v, length);
    UpperValue(body);
    var r := ToHexedInt(v, length);
    assert r[2..] == Upper(body);
  }

  // ---------------------------------------------------------------- addresses

  const MAC_ERROR: string := "Invalid bytes amount for mac"
  const IPV4_ERROR: string := "Invalid bytes amount for ipv4 address"
  const IPV6_ERROR: string := "Invalid bytes amount for ipv6 address"

  /** `to_mac_address`. */
  function ToMacAddress(bs: seq<byte>): (r: Result<string, FormatError>)
    ensures r.Failure? <==> |bs| != 6
    ensures r.Failure? ==> r.error == ValueError(MAC_ERROR)
  {
    if |bs| != 6 then Failure(ValueError(MAC_ERROR)) else Success(ByteStr(bs, ":"))
  }

  /** A MAC address is 17 characters: six upper-case pairs split by ':' that
      read back as the six bytes. */
  lemma MacAddressRoundTrip(bs: seq<byte>)
    requires |bs| == 6
    ensures |ToMacAddress(bs).value| == 17
    ensures var groups := Split(ToMacAddress(bs).value, ':');
            |groups| == 6 && forall i :: 0 <= i < 6 ==>
              |groups[i]| == 2 && IsUpperHex(groups[i]) && HexValue(groups[i]) == bs[i]
  {
    ByteStrGroups(bs, ":");
    ByteStrSplit(bs, ':');
  }

  function Decimals(bs: seq<byte>): (ds: seq<string>)
    ensures |ds| == |bs|
  {
    seq(|bs|, i requires 0 <= i < |bs| => Decimal(bs[i]))
  }

  /** `to_ipv4_address`. */
  function ToIpv4Address(bs: seq<byte>): (r: Result<string, FormatError>)
    ensures r.Failure? <==> |bs| != 4
    ensures r.Failure? ==> r.error == ValueError(IPV4_ERROR)
  {
    if |bs| != 4 then Failure(ValueError(IPV4_ERROR)) else Success(Join(Decimals(bs), "."))
  }

  /** A dotted quad has 7 to 15 characters and splits at '.' into four
      decimal numbers that read back as the four bytes. */
  lemma Ipv4RoundTrip(bs: seq<byte>)
    requires |bs| == 4
    ensures 7 <= |ToIpv4Address(bs).value| <= 15
    ensures var parts := Split(ToIpv4Address(bs).value, '.');
            |parts| == 4 && forall i :: 0 <= i < 4 ==>
              1 <= |parts[i]| <= 3 && (forall k :: 0 <= k < |parts[i]| ==> '0' <= parts[i][k] <= '9')
              && DecValue(parts[i]) == bs[i]
  {
    var ds := Decimals(bs);
    forall i | 0 <= i < 4
      ensures 1 <= |ds[i]| <= 3 && DecValue(ds[i]) == bs[i]
    {
      DecimalValue(bs[i]);
    }
    assert FreeOf(ds, '.');
    SplitJoin(ds, '.');
    JoinLengthBetween(ds, ".", 1, 3);
  }

  /** The eight groups of `to_ipv6_address`: each two-byte chunk rendered
      with no separator and zero-filled to four characters. */
  function Ipv6Groups(bs: seq<byte>): (gs: seq<string>)
  {
    var cs := Chunks(bs, 2);
    seq(|cs|, i requires 0 <= i < |cs| => ZFill(GetBytesStr(Octets(cs[i]), None, ""), 4))
  }

  /** `to_ipv6_address`. */
  function ToIpv6Address(bs: seq<byte>): (r: Result<string, FormatError>)
    ensures r.Failure? <==> |bs| != 16
    ensures r.Failure? ==> r.error == ValueError(IPV6_ERROR)
  {
    if |bs| != 16 then Failure(ValueError(IPV6_ERROR)) else Success(Join(Ipv6Groups(bs), ":"))
  }

  /** Four hex digits split as two pairs read as the first pair times 256 plus the second. */
  lemma PairConcat(s: string, t: string)
    requires |t| == 2
    requires forall i :: 0 <= i < |s| ==> IsHexDigit(s[i])
    requires forall i :: 0 <= i < |t| ==> IsHexDigit(t[i])
    ensures forall i :: 0 <= i < |s + t| ==> IsHexDigit((s + t)[i])
    ensures HexValue(s + t) == HexValue(s) * 256 + HexValue(t)
  {
    var st := s + t;
    var a, b := DigitValue(t[0]), DigitValue(t[1]);
    assert st[..|st| - 1] == s + t[..1];
    assert (s + t[..1])[..|st| - 2] == s;
    assert t[..1][..0] == [];
    assert HexValue(t[..1]) == a;
    assert HexValue(t) == a * 16 + b;
    assert HexValue(s + t[..1]) == HexValue(s) * 16 + a;
    assert HexValue(st) == (HexValue(s) * 16 + a) * 16 + b;
  }

  /** A two-byte chunk renders as four upper-case digits reading back as
      its first byte times 256 plus its second. */
  lemma ChunkGroup(c: seq<byte>)
    requires |c| == 2
    ensures var g := ZFill(GetBytesStr(Octets(c), None, ""), 4);
            |g| == 4 && IsUpperHex(g) && HexValue(g) == (c[0] as int) * 256 + c[1] as int
  {
    ByteStrGroups(c, "");
    var up := UpperPairs(c);
    assert Upper("") == "";
    var s := ByteStr(c, "");
    assert s == up[0] + up[1] by {
      assert up[1..] == [up[1]];
    }
    PairConcat(up[0], up[1]);
    assert GetBytesStr(Octets(c), None, "") == s;
    assert ZFill(s, 4) == s;
  }

  /** Group i of a 16-byte address: four upper-case digits reading back as
      bytes 2i and 2i+1. */
  lemma Ipv6Group(bs: seq<byte>, i: nat)
    requires |bs| == 16 && i < 8
    ensures |Ipv6Groups(bs)| == 8
    ensures var g := Ipv6Groups(bs)[i];
            |g| == 4 && IsUpperHex(g) && HexValue(g) == (bs[2 * i] as int) * 256 + bs[2 * i + 1] as int
  {
    var cs := Chunks(bs, 2);
    assert |cs| == 8 by {
      ChunkCount(bs, 2);
    }
    var c := cs[i];
    assert c == bs[2 * i .. 2 * i + 2] by {
      ChunkAt(bs, 2, i);
    }
    assert c[0] == bs[2 * i] && c[1] == bs[2 * i + 1];
    ChunkGroup(c);
    assert Ipv6Groups(bs)[i] == ZFill(GetBytesStr(Octets(c), None, ""), 4);
  }

  /** An IPv6 address is 39 characters: eight groups split by ':', group i
      reading back as bytes 2i and 2i+1. */
  lemma Ipv6RoundTrip(bs: seq<byte>)
    requires |bs| == 16
    ensures |ToIpv6Address(bs).value| == 39
    ensures var groups := Split(ToIpv6Address(bs).value, ':');
            |groups| == 8 && forall i :: 0 <= i < 8 ==>
              |groups[i]| == 4 && IsUpperHex(groups[i])
              && HexValue(groups[i]) == (bs[2 * i] as int) * 256 + bs[2 * i + 1] as int
  {
    var gs := Ipv6Groups(bs);
    Ipv6Group(bs, 0);
    forall i | 0 <= i < 8
      ensures |gs[i]| == 4 && IsUpperHex(gs[i]) && HexValue(gs[i]) == (bs[2 * i] as int) * 256 + bs[2 * i + 1] as int
    {
      Ipv6Group(bs, i);
    }
    Ipv6Group(bs, 0);
    assert FreeOf(gs, ':');
    SplitJoin(gs, ':');
    JoinLength(gs, ":", 4);
  }

  // ---------------------------------------------------------------- hex dump

  /** `f'{tab}{get_bytes_str(chunk)}\n'`. */
  function DumpLine(chunk: seq<byte>, tab: string): string
  {
    tab + GetBytesStr(Octets(chunk), None, " ") + "\n"
  }

  function DumpLines(chunks: seq<seq<byte>>, tab: string): (ls: seq<string>)
    ensures |ls| == |chunks|
  {
    seq(|chunks|, i requires 0 <= i < |chunks| => DumpLine(chunks[i], tab))
  }

  /** The dump of `to_hex_dump` for a positive row width. */
  function HexDump(bs: seq<byte>, rows: nat, tab: string): (r: string)
    requires rows > 0
    ensures r == "" <==> bs == []
  {
    Flatten(DumpLines(Chunks(bs, rows), tab))
  }

  const ZERO_STEP_ERROR: string := "range() arg 3 must not be zero"

  /** `to_hex_dump(bytes_, rows, tab)`: a zero width is the ValueError of
      `range`, a negative one an empty range and so an empty dump. */
  method ToHexDump(bs: seq<byte>, rows: int, tab: string) returns (r: Result<string, FormatError>)
    ensures rows == 0 ==> r == Failure(ValueError(ZERO_STEP_ERROR))
    ensures rows < 0 ==> r == Success("")
    ensures rows > 0 ==> r == Success(HexDump(bs, rows, tab))
  {
    if rows == 0 {
      return Failure(ValueError(ZERO_STEP_ERROR));
    }
    if rows < 0 {
      return Success("");
    }
    var cs := Chunks(bs, rows);
    ghost var lines := DumpLines(cs, tab);
    var dump := "";
    for i := 0 to |cs|
      invariant dump == Flatten(lines[..i])
    {
      FlattenAppend(lines[..i], lines[i]);
      assert lines[..i + 1] == lines[..i] + [lines[i]];
      dump := dump + tab + GetBytesStr(Octets(cs[i]), None, " ") + "\n";
    }
    assert lines[..|cs|] == lines;
    return Success(dump);
  }

  /** With a tab free of newlines, the dump splits at '\n' into one line per
      chunk of `rows` bytes, each the tab followed by that chunk's groups,
      then the empty remainder after the final newline. */
  lemma HexDumpLines(bs: seq<byte>, rows: nat, tab: string)
    requires rows > 0 && '\n' !in tab
    ensures var cs := Chunks(bs, rows);
            Split(HexDump(bs, rows, tab), '\n') ==
              seq(|cs|, i requires 0 <= i < |cs| => tab + Join(UpperPairs(cs[i]), " ")) + [""]
  {
    var cs := Chunks(bs, rows);
    var bodies := seq(|cs|, i requires 0 <= i < |cs| => tab + Join(UpperPairs(cs[i]), " "));
    forall i | 0 <= i < |cs|
      ensures DumpLines(cs, tab)[i] == bodies[i] + ['\n'] && '\n' !in bodies[i]
    {
      ByteStrGroups(cs[i], " ");
      assert Upper(" ") == " ";
      forall j | 0 <= j < |cs[i]|
        ensures '\n' !in UpperPairs(cs[i])[j]
      {
        assert IsUpperHex(UpperPairs(cs[i])[j]);
      }
      JoinFree(UpperPairs(cs[i]), " ", '\n');
    }
    assert DumpLines(cs, tab) == seq(|bodies|, i requires 0 <= i < |bodies| => bodies[i] + ['\n']);
    SplitLines(bodies, '\n');
  }
}
