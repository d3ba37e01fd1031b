/** `SyntheticDataGenerator`: the random value written into a filter in place
    of the rule's own value. Every `rand.Intn` call reads the next draw of the
    stream `d` at cursor `pos`; the functions return the cursor after their
    last draw. */
module Synthetic {
  import opened Common
  import opened Encoding
  import opened RegexSynth
  import opened Ipv4

  /** What the generator takes from Go's libraries: `syntax.Parse` with the
      Perl flags, `net.ParseCIDR` (restricted to IPv4 blocks) and the textual
      form `String()` of a literal node. */
  datatype Parsers = Parsers(regex: Str -> Option<Regex>, cidr: Str -> Option<Ipv4Net>, literal: Regex -> Str)

  // -------------------------------------------------------- random strings

  /** Character `i` of the 62-character set a-z, A-Z, 0-9 (in that order). */
  function CharsetByte(i: nat): (c: Byte)
    requires i < 62
    ensures IsAlnum(c)
  {
    if i < 26 then 97 + i else if i < 52 then 65 + (i - 26) else 48 + (i - 52)
  }

  /** The position of an alphanumeric character in the set (0 for any other byte). */
  function CharsetIndex(c: Byte): (i: nat)
    ensures i < 62
    ensures IsAlnum(c) ==> CharsetByte(i) == c
  {
    if IsLowerLetter(c) then c - 97
    else if IsUpper(c) then c - 65 + 26
    else if IsDigit(c) then c - 48 + 52
    else 0
  }

  /** `generateRandomString(n)`: `n` characters, each picked with one draw. */
  function RandomString(n: nat, d: Draws, pos: nat): (r: (Str, nat))
    ensures |r.0| == n && r.1 == pos + n
    ensures forall i :: 0 <= i < n ==> IsAlnum(r.0[i])
    ensures forall i :: 0 <= i < n ==> r.0[i] == CharsetByte(d(pos + i) % 62)
  {
    if n == 0 then ([], pos)
    else
      var (k, p) := Intn(d, pos, 62);
      var rest := RandomString(n - 1, d, p);
      ([CharsetByte(k)] + rest.0, rest.1)
  }

  /** The draw that makes `generateRandomString` pick `t[k - pos]` at cursor `k`. */
  function DrawFor(t: Str, pos: nat, k: nat): nat
  {
    if pos <= k < pos + |t| then CharsetIndex(t[k - pos]) else 0
  }

  /** Every alphanumeric string of length n is one `generateRandomString(n)` can return. */
  lemma RandomStringCoversAlnum(t: Str, pos: nat)
    requires forall i :: 0 <= i < |t| ==> IsAlnum(t[i])
    ensures RandomString(|t|, k => DrawFor(t, pos, k), pos).0 == t
  {
    var d: Draws := k => DrawFor(t, pos, k);
    var r := RandomString(|t|, d, pos).0;
    forall i | 0 <= i < |t|
      ensures r[i] == t[i]
    {
      assert d(pos + i) == CharsetIndex(t[i]);
    }
  }

  // ---------------------------------------------------------- generators

  /** `generateRegexSyntheticData`: an unparsable pattern yields "". */
  function GenerateRegex(pattern: Str, parsers: Parsers, d: Draws, pos: nat): (r: Outcome<(Str, nat)>)
    ensures parsers.regex(pattern).None? ==> r == Ok(([], pos))
    ensures r.Ok? ==> r.value.1 >= pos
    ensures r.Fail? ==> false
  {
    match parsers.regex(pattern)
    case None => Ok(([], pos))
    case Some(re) => Gen(re, parsers.literal, d, pos)
  }

  /** A pattern whose parse is a supported tree yields a string it matches. */
  lemma GenerateRegexMatches(pattern: Str, parsers: Parsers, d: Draws, pos: nat)
    requires parsers.regex(pattern).Some? && Supported(parsers.regex(pattern).value, parsers.literal)
    ensures GenerateRegex(pattern, parsers, d, pos).Ok?
    ensures InLang(parsers.regex(pattern).value, GenerateRegex(pattern, parsers, d, pos).value.0)
  {
    GenSound(parsers.regex(pattern).value, parsers.literal, d, pos);
  }

  /** `generateCIDRMatch`: an unparsable block yields ""; otherwise one draw
      picks an index below the number of addresses `IPRange` lists, and the
      address that many steps above the network address is printed. */
  function GenerateCidrMatch(parsed: Option<Ipv4Net>, d: Draws, pos: nat): (r: Outcome<(Str, nat)>)
    ensures parsed.None? ==> r == Ok(([], pos))
  {
    match parsed
    case None => Ok(([], pos))
    case Some(b) =>
      var ips :- IPRange(b);
      if |ips| == 0 then Crash(NonPositiveIntn)
      else
        var (k, p) := Intn(d, pos, |ips|);
        Ok((DottedQuad(GetNthIP(b, k)), p))
  }

  /** For a block /1 to /30 the draw picks among the 2^(32-p) - 2 listed
      addresses, but the address printed is counted from the network address. */
  lemma CidrMatchDraw(b: Ipv4Net, d: Draws, pos: nat)
    requires 0 < b.prefix <= 30
    ensures Size(b) > 2
    ensures GenerateCidrMatch(Some(b), d, pos) == Ok((DottedQuad(GetNthIP(b, d(pos) % (Size(b) - 2))), pos + 1))
  {
    IPRangeContents(b);
    Pow2Monotone(2, 32 - b.prefix);
    assert Pow2(2) == 4;
  }

  /** For a block /1 to /30 the printed address lies in the block at an offset
      below 2^(32-p) - 2 from the network address: it may be the network
      address itself and is never the broadcast address or the one below it. */
  lemma CidrMatchInBlock(b: Ipv4Net, d: Draws, pos: nat)
    requires 0 < b.prefix <= 30
    ensures GenerateCidrMatch(Some(b), d, pos).Ok?
    ensures exists a: seq<Byte> ::
      (|a| == 4 && Contains(b, a) &&
       ParseDottedQuad(GenerateCidrMatch(Some(b), d, pos).value.0) == Some(a) &&
       Network(b) <= ValueOf(a) < Network(b) + Size(b) - 2)
  {
    CidrMatchDraw(b, d, pos);
    var k := d(pos) % (Size(b) - 2);
    var a := GetNthIP(b, k);
    NthInBlock(b, k);
    DottedQuadRoundTrip(a);
  }

  /** With the draw 0 the network address itself is returned, although the
      listing it counts leaves that address out. */
  lemma CidrMatchCanBeNetwork(b: Ipv4Net, pos: nat)
    requires 0 < b.prefix <= 30
    ensures GenerateCidrMatch(Some(b), _ => 0, pos) == Ok((DottedQuad(NetworkAddress(b)), pos + 1))
  {
    CidrMatchDraw(b, _ => 0, pos);
    assert GetNthIP(b, 0) == NetworkAddress(b);
  }

  /** /31 lists no address and `rand.Intn(0)` panics; /32 fails when slicing;
      /0 never leaves the listing loop. */
  lemma CidrMatchEdgeBlocks(b: Ipv4Net, d: Draws, pos: nat)
    ensures b.prefix == 31 ==> GenerateCidrMatch(Some(b), d, pos) == Crash(NonPositiveIntn)
    ensures b.prefix == 32 ==> GenerateCidrMatch(Some(b), d, pos) == Crash(SliceOutOfRange)
    ensures b.prefix == 0 ==> GenerateCidrMatch(Some(b), d, pos) == Crash(EndlessLoop)
  {
    IPRangeContents(b);
    if b.prefix == 31 {
      assert Size(b) == 2;
    }
  }

  /** The operation names `GenerateSyntheticValue` tells apart. */
  const Contains_: Str := Txt("contains")
  const StartsWith_: Str := Txt("startswith")
  const EndsWith_: Str := Txt("endswith")
  const Re_: Str := Txt("re")
  const Cidr_: Str := Txt("cidr")

  lemma OpNamesDistinct()
    ensures Contains_ != EndsWith_ && |Contains_| == 8 && |EndsWith_| == 8
    ensures |StartsWith_| == 10 && |Re_| == 2 && |Cidr_| == 4
  {
    assert Contains_[0] == 99 && EndsWith_[0] == 101;
  }

  /** `v` occurs in `s` at index `i`. */
  predicate OccursAt(s: Str, v: Str, i: nat) {
    i + |v| <= |s| && s[i..i + |v|] == v
  }

  /** `GenerateSyntheticValue`: ten random characters are always drawn first;
      `contains` then draws an insertion point in [0, 10] and puts the value
      there, `startswith`/`endswith` put it in front/behind, `re` and `cidr`
      generate from the parsed value, and any other operation returns the
      value itself. */
  function GenerateSyntheticValue(value: Str, op: Str, parsers: Parsers, d: Draws, pos: nat): (r: Outcome<(Str, nat)>)
    ensures r.Fail? ==> false
    ensures op == Contains_ ==>
      (r.Ok? && |r.value.0| == |value| + 10 &&
       exists i :: 0 <= i <= 10 && OccursAt(r.value.0, value, i) &&
         (forall j :: 0 <= j < i ==> IsAlnum(r.value.0[j])) &&
         (forall j :: i + |value| <= j < |r.value.0| ==> IsAlnum(r.value.0[j])))
    ensures op == StartsWith_ ==>
      (r.Ok? && |r.value.0| == |value| + 10 && HasPrefix(r.value.0, value) &&
       forall j :: |value| <= j < |r.value.0| ==> IsAlnum(r.value.0[j]))
    ensures op == EndsWith_ ==>
      (r.Ok? && |r.value.0| == |value| + 10 && HasSuffix(r.value.0, value) &&
       forall j :: 0 <= j < 10 ==> IsAlnum(r.value.0[j]))
    ensures op !in {Contains_, StartsWith_, EndsWith_, Re_, Cidr_} ==> r == Ok((value, pos + 10))
    ensures op == Re_ ==> r == GenerateRegex(value, parsers, d, pos + 10)
    ensures op == Cidr_ ==> r == GenerateCidrMatch(parsers.cidr(value), d, pos + 10)
  {
    OpNamesDistinct();
    var (rnd, p) := RandomString(10, d, pos);
    if op == Contains_ then
      var (i, p2) := Intn(d, p, |rnd| + 1);
      var out := rnd[..i] + value + rnd[i..];
      assert OccursAt(out, value, i);
      Ok((out, p2))
    else if op == StartsWith_ then
      Ok((value + rnd, p))
    else if op == EndsWith_ then
      Ok((rnd + value, p))
    else if op == Re_ then
      GenerateRegex(value, parsers, d, p)
    else if op == Cidr_ then
      GenerateCidrMatch(parsers.cidr(value), d, p)
    else
      Ok((value, p))
  }

  /** The insertion point of `contains` is the eleventh draw, reduced into [0, 10]. */
  lemma ContainsInsertionPoint(value: Str, parsers: Parsers, d: Draws, pos: nat)
    ensures GenerateSyntheticValue(value, Contains_, parsers, d, pos).value ==
      (RandomString(10, d, pos).0[..d(pos + 10) % 11] + value + RandomString(10, d, pos).0[d(pos + 10) % 11..], pos + 11)
  {
    OpNamesDistinct();
  }
}
