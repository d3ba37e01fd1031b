/** Shared vocabulary of the model: Go byte strings, outcomes (error returns
    and runtime crashes), the pseudo-random draw stream, and the string
    helpers of Go's `strings` and `strconv` packages that the evaluator uses. */
module Common {

  /** One byte of a Go string. */
  type Byte = b: int | 0 <= b < 256

  /** A Go `string`: an immutable sequence of bytes, not necessarily valid UTF-8. */
  type Str = seq<Byte>

  /** The bytes of an ASCII Dafny string literal (used for the constants of the source). */
  function Txt(s: string): Str
  {
    seq(|s|, i requires 0 <= i < |s| => (s[i] as int) % 256)
  }

  datatype Option<+T> = None | Some(value: T)

  /** The error values the source returns (the wording of the messages is not modelled). */
  datatype Error =
    | KeywordsUnsupported
    | UnknownModifier(modifier: Str)
    | ComparatorNotLast(modifier: Str)
    | NotScalar
    | NoPlaceholderExpander(placeholder: Str)
    | PlaceholderExpansionFailed(placeholder: Str)
    | SearchFailed(identifier: Str, cause: Error)

  /** Ways in which the source does not return at all: a Go runtime panic, or a
      recursion or loop that never ends. */
  datatype Fault =
    | NilComparatorCall   // calling the nil ComparatorFunc left by a failed lookup
    | NonPositiveIntn     // rand.Intn called with a bound <= 0
    | SliceOutOfRange     // slicing with low > high
    | EndlessRecursion    // a function that calls itself on the same argument
    | EndlessLoop         // a loop whose guard can never become false

  /** The result of an operation: a value, a returned error, or a fault. */
  datatype Outcome<+T> = Ok(value: T) | Fail(error: Error) | Crash(fault: Fault)
  {
    predicate IsFailure() {
      !Ok?
    }

    function PropagateFailure<U>(): Outcome<U>
      requires !Ok?
    {
      if Fail? then Fail(error) else Crash(fault)
    }

    function Extract(): T
      requires Ok?
    {
      value
    }
  }

  /** The process-wide generator of `math/rand`, seeded from the clock: `d(k)` is
      the raw value of the k-th draw. Nothing is known about it. */
  type Draws = nat -> nat

  /** `rand.Intn(n)` as the draw at cursor `pos`, reduced into [0, n); as `d`
      ranges over all streams this yields exactly the values Intn may return. */
  function Intn(d: Draws, pos: nat, n: nat): (r: (nat, nat))
    requires n > 0
    ensures r.0 < n
    ensures r.1 == pos + 1
  {
    (d(pos) % n, pos + 1)
  }

  /** `strings.Join(parts, sep)`. */
  function Join(parts: seq<Str>, sep: Str): Str
  {
    if |parts| == 0 then []
    else if |parts| == 1 then parts[0]
    else parts[0] + sep + Join(parts[1..], sep)
  }

  /** `strings.Join(parts, "")`. */
  function Concat(parts: seq<Str>): Str
  {
    Join(parts, [])
  }

  lemma {:induction false} ConcatCons(p: Str, parts: seq<Str>)
    ensures Concat([p] + parts) == p + Concat(parts)
  {
    if |parts| > 0 {
      assert ([p] + parts)[1..] == parts;
    }
  }

  lemma {:induction false} ConcatAppend(parts: seq<Str>, more: seq<Str>)
    ensures Concat(parts + more) == Concat(parts) + Concat(more)
    decreases |parts|
  {
    if |parts| == 0 {
      assert parts + more == more;
    } else {
      ConcatCons(parts[0], parts[1..] + more);
      assert parts + more == [parts[0]] + (parts[1..] + more);
      ConcatAppend(parts[1..], more);
      ConcatCons(parts[0], parts[1..]);
      assert parts == [parts[0]] + parts[1..];
    }
  }

  /** `strings.HasPrefix` / `strings.HasSuffix`. */
  predicate HasPrefix(s: Str, p: Str) {
    |p| <= |s| && s[..|p|] == p
  }

  predicate HasSuffix(s: Str, p: Str) {
    |p| <= |s| && s[|s| - |p|..] == p
  }

  /** ASCII letters, digits, and their lower-case forms. */
  predicate IsUpper(b: Byte) { 65 <= b <= 90 }
  predicate IsLowerLetter(b: Byte) { 97 <= b <= 122 }
  predicate IsDigit(b: Byte) { 48 <= b <= 57 }
  predicate IsAlnum(b: Byte) { IsUpper(b) || IsLowerLetter(b) || IsDigit(b) }

  function LowerByte(b: Byte): Byte {
    if IsUpper(b) then b + 32 else b
  }

  /** `strings.ToLower` on its ASCII path: upper-case ASCII letters become
      lower-case, every other byte is kept. */
  function Lower(s: Str): (r: Str)
    ensures |r| == |s|
    ensures forall i :: 0 <= i < |s| ==> !IsUpper(r[i])
    ensures forall i :: 0 <= i < |s| && !IsUpper(s[i]) ==> r[i] == s[i]
    ensures forall i :: 0 <= i < |s| && IsUpper(s[i]) ==> r[i] == s[i] + 32
  {
    seq(|s|, i requires 0 <= i < |s| => LowerByte(s[i]))
  }

  lemma LowerConcat(a: Str, b: Str)
    ensures Lower(a + b) == Lower(a) + Lower(b)
  {
    assert forall i :: 0 <= i < |a + b| ==> Lower(a + b)[i] == (Lower(a) + Lower(b))[i];
  }

  lemma LowerSlice(s: Str, a: nat, b: nat)
    requires a <= b <= |s|
    ensures Lower(s[a..b]) == Lower(s)[a..b]
  {
  }

  lemma LowerIdempotent(s: Str)
    ensures Lower(Lower(s)) == Lower(s)
  {
  }

  /** A string with no upper-case ASCII letter is its own lower-case form. */
  lemma LowerOfLower(s: Str)
    requires forall i :: 0 <= i < |s| ==> !IsUpper(s[i])
    ensures Lower(s) == s
  {
  }

  /** `strconv.Itoa` for a natural number: decimal digits, no leading zero. */
  function Decimal(n: nat): (r: Str)
    ensures 1 <= |r|
    ensures forall i :: 0 <= i < |r| ==> IsDigit(r[i])
    ensures |r| > 1 ==> r[0] != 48
  {
    if n < 10 then [48 + n] else Decimal(n / 10) + [48 + n % 10]
  }

  /** `%v` of a Go int: a minus sign for negative values, then the decimal digits. */
  function IntText(i: int): Str
  {
    if i < 0 then [45] + Decimal(-i) else Decimal(i)
  }

  /** The value of a sequence of decimal digits. */
  function DigitsValue(s: Str): nat
    requires forall i :: 0 <= i < |s| ==> IsDigit(s[i])
  {
    if |s| == 0 then 0
    else
      assert IsDigit(s[|s| - 1]);
      DigitsValue(s[..|s| - 1]) * 10 + (s[|s| - 1] as int - 48)
  }

  /** A reference reader of decimal numbers: non-empty digits only. */
  function ParseDecimal(s: Str): Option<nat>
  {
    if |s| > 0 && forall i :: 0 <= i < |s| ==> IsDigit(s[i]) then Some(DigitsValue(s)) else None
  }

  lemma {:induction false} DecimalRoundTrip(n: nat)
    ensures ParseDecimal(Decimal(n)) == Some(n)
    ensures DigitsValue(Decimal(n)) == n
  {
    var r := Decimal(n);
    if n >= 10 {
      DecimalRoundTrip(n / 10);
      assert r[..|r| - 1] == Decimal(n / 10);
    }
    assert DigitsValue(r) == n;
  }

  /** Splits `s` at every occurrence of `sep`, as `strings.Split` does. */
  function Split(s: Str, sep: Byte): (r: seq<Str>)
    ensures |r| >= 1
  {
    if |s| == 0 then [[]]
    else if s[0] == sep then [[]] + Split(s[1..], sep)
    else var rest := Split(s[1..], sep); [[s[0]] + rest[0]] + rest[1..]
  }

  lemma {:induction false} SplitNoSep(x: Str, sep: Byte)
    requires forall i :: 0 <= i < |x| ==> x[i] != sep
    ensures Split(x, sep) == [x]
  {
    if |x| > 0 {
      SplitNoSep(x[1..], sep);
      assert [x[0]] + x[1..] == x;
    }
  }

  lemma {:induction false} SplitAtSep(x: Str, sep: Byte, y: Str)
    requires forall i :: 0 <= i < |x| ==> x[i] != sep
    ensures Split(x + [sep] + y, sep) == [x] + Split(y, sep)
  {
    if |x| == 0 {
      assert x + [sep] + y == [sep] + y;
      assert ([sep] + y)[1..] == y;
    } else {
      var s := x + [sep] + y;
      assert s[0] == x[0];
      assert s[1..] == x[1..] + [sep] + y;
      SplitAtSep(x[1..], sep, y);
      assert [x[0]] + x[1..] == x;
    }
  }
}
