/** Byte-level encodings behind the value modifiers and the regex synthesiser:
    base64 as in section 4 of RFC 4648, UTF-8 as Go decodes (`[]rune(s)`) and
    appends (`WriteRune`) runes, and UTF-16 as in section 2 of RFC 2781, written
    out as little-endian byte pairs. */
module Encoding {
  import opened Common

  // ---------------------------------------------------------------- base64

  /** The padding symbol `=`. */
  const Pad: Byte := 61

  /** The symbol for a 6-bit group (Table 1 of RFC 4648): A-Z, a-z, 0-9, '+', '/'. */
  function Sym(i: nat): (b: Byte)
    requires i < 64
    ensures b != Pad
  {
    if i < 26 then 65 + i
    else if i < 52 then 97 + (i - 26)
    else if i < 62 then 48 + (i - 52)
    else if i == 62 then 43
    else 47
  }

  /** The 6-bit group a symbol stands for, if it is one of the 64 symbols. */
  function SymIndex(b: Byte): (r: Option<nat>)
    ensures r.Some? ==> r.value < 64
  {
    if 65 <= b <= 90 then Some(b - 65)
    else if 97 <= b <= 122 then Some(b - 71)
    else if 48 <= b <= 57 then Some(b + 4)
    else if b == 43 then Some(62)
    else if b == 47 then Some(63)
    else None
  }

  lemma SymIndexOfSym(i: nat)
    requires i < 64
    ensures SymIndex(Sym(i)) == Some(i)
  {
  }

  /** Three input bytes become four symbols. */
  function EncodeGroup(a: Byte, b: Byte, c: Byte): Str
  {
    [Sym(a / 4), Sym((a % 4) * 16 + b / 16), Sym((b % 16) * 4 + c / 64), Sym(c % 64)]
  }

  /** `base64.StdEncoding.EncodeToString`: full groups, then a final group of one
      or two bytes padded with `=`. */
  function Base64(bs: seq<Byte>): Str
    decreases |bs|
  {
    if |bs| == 0 then []
    else if |bs| == 1 then [Sym(bs[0] / 4), Sym((bs[0] % 4) * 16), Pad, Pad]
    else if |bs| == 2 then [Sym(bs[0] / 4), Sym((bs[0] % 4) * 16 + bs[1] / 16), Sym((bs[1] % 16) * 4), Pad]
    else EncodeGroup(bs[0], bs[1], bs[2]) + Base64(bs[3..])
  }

  /** Decodes one group of four symbols; only the last group may carry padding. */
  function DecodeQuad(q: Str, last: bool): Option<seq<Byte>>
    requires |q| == 4
  {
    var i0, i1, i2, i3 := SymIndex(q[0]), SymIndex(q[1]), SymIndex(q[2]), SymIndex(q[3]);
    if i0.None? || i1.None? then None
    else if last && q[2] == Pad && q[3] == Pad then Some([i0.value * 4 + i1.value / 16])
    else if i2.None? then None
    else if last && q[3] == Pad then
      Some([i0.value * 4 + i1.value / 16, (i1.value % 16) * 16 + i2.value / 4])
    else if i3.None? then None
    else Some([i0.value * 4 + i1.value / 16, (i1.value % 16) * 16 + i2.value / 4, (i2.value % 4) * 64 + i3.value])
  }

  /** A reference base64 decoder (section 4 of RFC 4648), the inverse of `Base64`. */
  function Base64Decode(s: Str): Option<seq<Byte>>
    decreases |s|
  {
    if |s| == 0 then Some([])
    else if |s| < 4 then None
    else
      var q := DecodeQuad(s[..4], |s| == 4);
      if q.None? then None
      else
        var rest := Base64Decode(s[4..]);
        if rest.None? then None else Some(q.value + rest.value)
  }

  lemma GroupRoundTrip(a: Byte, b: Byte, c: Byte, last: bool)
    ensures DecodeQuad(EncodeGroup(a, b, c), last) == Some([a, b, c])
  {
    var q := EncodeGroup(a, b, c);
    SymIndexOfSym(a / 4);
    SymIndexOfSym((a % 4) * 16 + b / 16);
    SymIndexOfSym((b % 16) * 4 + c / 64);
    SymIndexOfSym(c % 64);
    assert ((a % 4) * 16 + b / 16) / 16 == a % 4;
    assert ((a % 4) * 16 + b / 16) % 16 == b / 16;
    assert ((b % 16) * 4 + c / 64) / 4 == b % 16;
    assert ((b % 16) * 4 + c / 64) % 4 == c / 64;
  }

  lemma OneByteRoundTrip(a: Byte)
    ensures Base64Decode(Base64([a])) == Some([a])
  {
    var s := Base64([a]);
    SymIndexOfSym(a / 4);
    SymIndexOfSym((a % 4) * 16);
    assert ((a % 4) * 16) / 16 == a % 4;
    assert (a / 4) * 4 + a % 4 == a;
    assert s[..4] == s && s[4..] == [];
    assert DecodeQuad(s, true) == Some([a]);
    assert Base64Decode(s[4..]) == Some([]);
    assert [a] + [] == [a];
  }

  lemma TwoBytesRoundTrip(a: Byte, b: Byte)
    ensures Base64Decode(Base64([a, b])) == Some([a, b])
  {
    var s := Base64([a, b]);
    SymIndexOfSym(a / 4);
    SymIndexOfSym((a % 4) * 16 + b / 16);
    SymIndexOfSym((b % 16) * 4);
    assert ((a % 4) * 16 + b / 16) / 16 == a % 4;
    assert ((a % 4) * 16 + b / 16) % 16 == b / 16;
    assert ((b % 16) * 4) / 4 == b % 16;
    assert (a / 4) * 4 + a % 4 == a;
    assert (b / 16) * 16 + b % 16 == b;
    assert s[..4] == s && s[4..] == [];
    assert DecodeQuad(s, true) == Some([a, b]);
    assert Base64Decode(s[4..]) == Some([]);
    assert [a, b] + [] == [a, b];
  }

  /** Decoding the base64 form of any byte string gives the byte string back. */
  lemma {:induction false} Base64RoundTrip(bs: seq<Byte>)
    ensures Base64Decode(Base64(bs)) == Some(bs)
    decreases |bs|
  {
    if |bs| == 1 {
      assert [bs[0]] == bs;
      OneByteRoundTrip(bs[0]);
    } else if |bs| == 2 {
      assert [bs[0], bs[1]] == bs;
      TwoBytesRoundTrip(bs[0], bs[1]);
    } else if |bs| >= 3 {
      var s := Base64(bs);
      var g := EncodeGroup(bs[0], bs[1], bs[2]);
      var rest := Base64(bs[3..]);
      assert s == g + rest;
      assert s[..4] == g;
      assert s[4..] == rest;
      GroupRoundTrip(bs[0], bs[1], bs[2], |s| == 4);
      Base64RoundTrip(bs[3..]);
      assert [bs[0], bs[1], bs[2]] + bs[3..] == bs;
    }
  }

  /** The base64 form of n bytes has 4 * ceil(n / 3) symbols. */
  lemma {:induction false} Base64Length(bs: seq<Byte>)
    ensures |Base64(bs)| == 4 * ((|bs| + 2) / 3)
    decreases |bs|
  {
    if |bs| >= 3 {
      Base64Length(bs[3..]);
    }
  }

  // ---------------------------------------------------------------- UTF-8

  /** The replacement rune U+FFFD that Go substitutes for undecodable input. */
  const RuneError: int := 0xFFFD

  /** A Unicode scalar value: a code point that is not a surrogate. */
  predicate ValidRune(r: int) {
    (0 <= r < 0xD800) || (0xE000 <= r <= 0x10FFFF)
  }

  /** The UTF-8 bytes `strings.Builder.WriteRune` appends for a rune; an invalid
      rune is written as U+FFFD. */
  function RuneBytes(r: int): (s: Str)
    ensures 1 <= |s| <= 4
  {
    if 0 <= r < 0x80 then [r]
    else if 0x80 <= r < 0x800 then [0xC0 + r / 64, 0x80 + r % 64]
    else if ValidRune(r) && r < 0x10000 then [0xE0 + r / 4096, 0x80 + (r / 64) % 64, 0x80 + r % 64]
    else if 0x10000 <= r <= 0x10FFFF then
      [0xF0 + r / 262144, 0x80 + (r / 4096) % 64, 0x80 + (r / 64) % 64, 0x80 + r % 64]
    else [0xEF, 0xBF, 0xBD]
  }

  /** The bytes of a rune sequence written one after the other. */
  function Utf8Of(rs: seq<int>): Str
  {
    if |rs| == 0 then [] else RuneBytes(rs[0]) + Utf8Of(rs[1..])
  }

  predicate IsContinuation(b: Byte) { 0x80 <= b <= 0xBF }

  /** `utf8.DecodeRune`: the first rune of `s` and its width; a byte that does not
      start a well-formed sequence decodes as (U+FFFD, 1). */
  function DecodeRune(s: Str): (r: (int, nat))
    requires |s| > 0
    ensures 1 <= r.1 <= |s| && r.1 <= 4
  {
    var b0 := s[0] as int;
    if b0 < 0x80 then (b0, 1)
    else
      var (size, lo, hi) :=
        if 0xC2 <= b0 <= 0xDF then (2, 0x80, 0xBF)
        else if b0 == 0xE0 then (3, 0xA0, 0xBF)
        else if (0xE1 <= b0 <= 0xEC) || (0xEE <= b0 <= 0xEF) then (3, 0x80, 0xBF)
        else if b0 == 0xED then (3, 0x80, 0x9F)
        else if b0 == 0xF0 then (4, 0x90, 0xBF)
        else if 0xF1 <= b0 <= 0xF3 then (4, 0x80, 0xBF)
        else if b0 == 0xF4 then (4, 0x80, 0x8F)
        else (0, 0, 0);
      if size == 0 || |s| < size then (RuneError, 1)
      else if !(lo <= s[1] as int <= hi) then (RuneError, 1)
      else if size == 2 then ((b0 % 32) * 64 + (s[1] as int) % 64, 2)
      else if !IsContinuation(s[2]) then (RuneError, 1)
      else if size == 3 then ((b0 % 16) * 4096 + (s[1] as int % 64) * 64 + s[2] as int % 64, 3)
      else if !IsContinuation(s[3]) then (RuneError, 1)
      else ((b0 % 8) * 262144 + (s[1] as int % 64) * 4096 + (s[2] as int % 64) * 64 + s[3] as int % 64, 4)
  }

  /** `[]rune(s)`: the runes of a byte string, decoded from the front. */
  function Runes(s: Str): seq<int>
    decreases |s|
  {
    if |s| == 0 then [] else var (r, n) := DecodeRune(s); [r] + Runes(s[n..])
  }

  lemma RuneRoundTrip2(r: int, rest: Str)
    requires 0x80 <= r < 0x800
    ensures DecodeRune(RuneBytes(r) + rest) == (r, |RuneBytes(r)|)
  {
    var s := RuneBytes(r) + rest;
    assert s[0] == 0xC0 + r / 64 && s[1] == 0x80 + r % 64;
    assert (0xC0 + r / 64) % 32 == r / 64;
    assert (0x80 + r % 64) % 64 == r % 64;
  }

  lemma RuneRoundTrip3(r: int, rest: Str)
    requires ValidRune(r) && 0x800 <= r < 0x10000
    ensures DecodeRune(RuneBytes(r) + rest) == (r, |RuneBytes(r)|)
  {
    var s := RuneBytes(r) + rest;
    var hi, mid, low := r / 4096, (r / 64) % 64, r % 64;
    assert r == hi * 4096 + mid * 64 + low;
    assert s[0] == 0xE0 + hi && s[1] == 0x80 + mid && s[2] == 0x80 + low;
    assert (0xE0 + hi) % 16 == hi;
    assert (0x80 + mid) % 64 == mid;
    assert (0x80 + low) % 64 == low;
    if hi == 0 {
      assert mid >= 32;
    }
    if hi == 13 {
      assert mid < 32;
    }
  }

  lemma RuneRoundTrip4(r: int, rest: Str)
    requires 0x10000 <= r <= 0x10FFFF
    ensures DecodeRune(RuneBytes(r) + rest) == (r, |RuneBytes(r)|)
  {
    var s := RuneBytes(r) + rest;
    var top, hi, mid, low := r / 262144, (r / 4096) % 64, (r / 64) % 64, r % 64;
    assert r == top * 262144 + hi * 4096 + mid * 64 + low;
    assert s[0] == 0xF0 + top && s[1] == 0x80 + hi && s[2] == 0x80 + mid && s[3] == 0x80 + low;
    assert (0xF0 + top) % 8 == top;
    assert (0x80 + hi) % 64 == hi;
    assert (0x80 + mid) % 64 == mid;
    assert (0x80 + low) % 64 == low;
    if top == 0 {
      assert hi >= 16;
    }
    if top == 4 {
      assert hi < 16;
    }
  }

  /** Decoding the bytes `WriteRune` appends for a valid rune gives that rune
      back, whatever bytes follow. */
  lemma RuneRoundTrip(r: int, rest: Str)
    requires ValidRune(r)
    ensures DecodeRune(RuneBytes(r) + rest) == (r, |RuneBytes(r)|)
  {
    if 0x80 <= r < 0x800 {
      RuneRoundTrip2(r, rest);
    } else if 0x800 <= r < 0x10000 {
      RuneRoundTrip3(r, rest);
    } else if 0x10000 <= r {
      RuneRoundTrip4(r, rest);
    }
  }

  /** `[]rune` of the UTF-8 form of valid runes returns those runes. */
  lemma {:induction false} Utf8RoundTrip(rs: seq<int>)
    requires forall i :: 0 <= i < |rs| ==> ValidRune(rs[i])
    ensures Runes(Utf8Of(rs)) == rs
    decreases |rs|
  {
    if |rs| > 0 {
      var x, y := RuneBytes(rs[0]), Utf8Of(rs[1..]);
      RuneRoundTrip(rs[0], y);
      assert (x + y)[|x|..] == y;
      Utf8RoundTrip(rs[1..]);
      assert [rs[0]] + rs[1..] == rs;
    }
  }

  /** An ASCII string decodes to one rune per byte, equal to the byte. */
  lemma {:induction false} AsciiRunes(s: Str)
    requires forall i :: 0 <= i < |s| ==> s[i] < 0x80
    ensures Runes(s) == s
    decreases |s|
  {
    if |s| > 0 {
      AsciiRunes(s[1..]);
      assert [s[0] as int] + s[1..] == s;
    }
  }

  // ---------------------------------------------------------------- UTF-16

  /** A 16-bit UTF-16 code unit. */
  type Unit = u: int | 0 <= u < 0x10000

  /** The code units `utf16.Encode` produces for one rune: the rune itself below
      U+10000, a surrogate pair above, U+FFFD for a surrogate or out-of-range value. */
  function RuneUnits(r: int): (us: seq<Unit>)
    ensures 1 <= |us| <= 2
  {
    if (0 <= r < 0xD800) || (0xE000 <= r < 0x10000) then [r]
    else if 0x10000 <= r <= 0x10FFFF then [0xD800 + (r - 0x10000) / 1024, 0xDC00 + (r - 0x10000) % 1024]
    else [0xFFFD]
  }

  /** `utf16.Encode`. */
  function Utf16(rs: seq<int>): seq<Unit>
  {
    if |rs| == 0 then [] else RuneUnits(rs[0]) + Utf16(rs[1..])
  }

  /** A reference UTF-16 decoder (section 2.2 of RFC 2781): a high surrogate
      followed by a low surrogate forms one rune, any other lone surrogate is U+FFFD. */
  function Utf16Decode(us: seq<Unit>): seq<int>
    decreases |us|
  {
    if |us| == 0 then []
    else if us[0] < 0xD800 || 0xE000 <= us[0] then [us[0] as int] + Utf16Decode(us[1..])
    else if us[0] < 0xDC00 && |us| > 1 && 0xDC00 <= us[1] < 0xE000 then
      [(us[0] - 0xD800) * 1024 + (us[1] - 0xDC00) + 0x10000] + Utf16Decode(us[2..])
    else [RuneError] + Utf16Decode(us[1..])
  }

  /** UTF-16 decoding undoes UTF-16 encoding on valid runes. */
  lemma {:induction false} Utf16RoundTrip(rs: seq<int>)
    requires forall i :: 0 <= i < |rs| ==> ValidRune(rs[i])
    ensures Utf16Decode(Utf16(rs)) == rs
    decreases |rs|
  {
    if |rs| > 0 {
      var r := rs[0];
      var x, y := RuneUnits(r), Utf16(rs[1..]);
      Utf16RoundTrip(rs[1..]);
      if r >= 0x10000 {
        var v := r - 0x10000;
        assert v == (v / 1024) * 1024 + v % 1024;
        assert (x + y)[0] == 0xD800 + v / 1024;
        assert (x + y)[1] == 0xDC00 + v % 1024;
        assert (x + y)[2..] == y;
      } else {
        assert (x + y)[1..] == y;
      }
      assert [r] + rs[1..] == rs;
    }
  }

  /** Code units written as little-endian byte pairs (`binary.LittleEndian.PutUint16`). */
  function LittleEndian(us: seq<Unit>): (bs: Str)
    ensures |bs| == 2 * |us|
  {
    seq(2 * |us|, k requires 0 <= k < 2 * |us| => if k % 2 == 0 then us[k / 2] % 256 else us[k / 2] / 256)
  }

  /** Reassembles code units from little-endian byte pairs. */
  function UnitsOfLittleEndian(bs: Str): seq<Unit>
    requires |bs| % 2 == 0
  {
    seq(|bs| / 2, i requires 0 <= i < |bs| / 2 => bs[2 * i] as int + 256 * (bs[2 * i + 1] as int))
  }

  /** Code unit i occupies bytes 2i (low half) and 2i + 1 (high half). */
  lemma LittleEndianAt(us: seq<Unit>, i: nat)
    requires i < |us|
    ensures LittleEndian(us)[2 * i] == us[i] % 256
    ensures LittleEndian(us)[2 * i + 1] == us[i] / 256
  {
    assert (2 * i) % 2 == 0 && (2 * i) / 2 == i;
    assert (2 * i + 1) % 2 == 1 && (2 * i + 1) / 2 == i;
  }

  /** The byte pairs determine the code units: reading them back gives the units. */
  lemma LittleEndianRoundTrip(us: seq<Unit>)
    ensures UnitsOfLittleEndian(LittleEndian(us)) == us
  {
    var bs := LittleEndian(us);
    forall i | 0 <= i < |us|
      ensures UnitsOfLittleEndian(bs)[i] == us[i]
    {
      LittleEndianAt(us, i);
    }
  }

  /** The `wide` value modifier: the string's runes as UTF-16 code units, each
      written as two little-endian bytes. */
  function Wide(s: Str): (w: Str)
    ensures |w| == 2 * |Utf16(Runes(s))|
    ensures UnitsOfLittleEndian(w) == Utf16(Runes(s))
  {
    LittleEndianRoundTrip(Utf16(Runes(s)));
    LittleEndian(Utf16(Runes(s)))
  }

  lemma {:induction false} Utf16Ascii(rs: seq<int>)
    requires forall i :: 0 <= i < |rs| ==> 0 <= rs[i] < 0x80
    ensures Utf16(rs) == rs
    decreases |rs|
  {
    if |rs| > 0 {
      Utf16Ascii(rs[1..]);
      assert [rs[0]] + rs[1..] == rs;
    }
  }

  /** Code units below 0x80 are written as the unit followed by a zero byte. */
  lemma LittleEndianAscii(us: seq<Unit>)
    requires forall i :: 0 <= i < |us| ==> us[i] < 0x80
    ensures forall i :: 0 <= i < |us| ==> LittleEndian(us)[2 * i] == us[i] && LittleEndian(us)[2 * i + 1] == 0
  {
    forall i | 0 <= i < |us|
      ensures LittleEndian(us)[2 * i] == us[i] && LittleEndian(us)[2 * i + 1] == 0
    {
      LittleEndianAt(us, i);
    }
  }

  /** For ASCII input, `wide` interleaves each byte with a zero byte. */
  lemma WideAscii(s: Str)
    requires forall i :: 0 <= i < |s| ==> s[i] < 0x80
    ensures |Wide(s)| == 2 * |s|
    ensures forall i :: 0 <= i < |s| ==> Wide(s)[2 * i] == s[i] && Wide(s)[2 * i + 1] == 0
  {
    AsciiRunes(s);
    Utf16Ascii(s);
    var us: seq<Unit> := s;
    assert Wide(s) == LittleEndian(us);
    LittleEndianAscii(us);
  }
}
