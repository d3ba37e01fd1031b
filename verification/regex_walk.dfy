/** The regex synthesiser: a walk over a parsed regular expression (the tree
    Go's `regexp/syntax` produces) that writes one string it hopes the
    expression matches. The parser itself and the textual rendering of a
    literal node are not modelled; the walk receives the parsed tree and the
    renderer `lit` as inputs. */
module RegexSynth {
  import opened Common
  import opened Encoding

  /** The node kinds of `syntax.Op`. */
  datatype Op =
    | NoMatch | EmptyMatch | Literal | CharClass | AnyCharNotNL | AnyChar
    | BeginLine | EndLine | BeginText | EndText | WordBoundary | NoWordBoundary
    | Capture | Star | Plus | Quest | Repeat | Concat | Alternate

  /** A `syntax.Regexp` node: its kind, its children, its runes (the literal
      text, or the class as consecutive [lo, hi] pairs) and the bounds of a
      repetition (`max` is -1 when unbounded). */
  datatype Regex = Regex(op: Op, sub: seq<Regex>, runes: seq<int>, min: int, max: int)

  /** Nodes that `handleOtherRegexOperations` writes nothing for (it only logs
      "Unsupported syntax.Op"). */
  predicate Silent(op: Op) {
    op !in {Concat, CharClass, Literal, Capture, NoMatch}
  }

  // ------------------------------------------------------------------ walk

  /** `handleOtherRegexOperations` on a node without children. A capture or
      no-match node without children hands itself back to the walk, which
      hands it back again: the recursion never ends. */
  function Leaf(re: Regex, lit: Regex -> Str, d: Draws, pos: nat): (r: Outcome<(Str, nat)>)
    requires |re.sub| == 0
    ensures r.Crash? <==> re.op in {Capture, NoMatch}
    ensures r.Ok? <==> re.op !in {Capture, NoMatch}
    ensures r.Ok? && re.op == CharClass && |re.runes| > 0 ==>
      exists k :: 0 <= k < |re.runes| && r.value.0 == RuneBytes(re.runes[k])
    ensures r.Ok? && re.op == Literal ==> r.value == (lit(re), pos)
    ensures r.Ok? && (Silent(re.op) || re.op == Concat || (re.op == CharClass && |re.runes| == 0)) ==> r.value == ([], pos)
  {
    match re.op
    case Concat => Ok(([], pos))
    case CharClass =>
      if |re.runes| > 0 then
        var (k, p) := Intn(d, pos, |re.runes|);
        Ok((RuneBytes(re.runes[k]), p))
      else Ok(([], pos))
    case Literal => Ok((lit(re), pos))
    case Capture => Crash(EndlessRecursion)
    case NoMatch => Crash(EndlessRecursion)
    case _ => Ok(([], pos))
  }

  /** `generateRegexSyntheticDataRecursive`: the text written for `re` and the
      draw cursor after it. */
  function Gen(re: Regex, lit: Regex -> Str, d: Draws, pos: nat): (r: Outcome<(Str, nat)>)
    ensures r.Ok? ==> r.value.1 >= pos
    ensures r.Fail? ==> false
    decreases re, 2, 0
  {
    if |re.sub| == 0 then Leaf(re, lit, d, pos)
    else if re.op == Repeat then
      var rep :- RepeatFrom(re, lit, 0, d, pos);
      Ok((rep.0, rep.1))
    else GenEach(re, lit, 0, d, pos)
  }

  /** The loop of `OpRepeat` from iteration `j` on. The bound `Min + Intn(Max -
      Min + 1)` is drawn afresh at every test of the loop condition, and a
      bound argument <= 0 makes `rand.Intn` panic. Returns the text, the
      cursor and the number of iterations the loop ran in total. */
  function RepeatFrom(re: Regex, lit: Regex -> Str, j: int, d: Draws, pos: nat): (r: Outcome<(Str, nat, int)>)
    requires |re.sub| > 0
    ensures r.Ok? ==> r.value.1 > pos && r.value.2 >= j && r.value.2 >= re.min
    ensures r.Ok? && j <= re.max ==> r.value.2 <= re.max
    ensures re.max < re.min ==> r == Crash(NonPositiveIntn)
    ensures r.Fail? ==> false
    decreases re, 1, re.max - j
  {
    if re.max - re.min + 1 <= 0 then Crash(NonPositiveIntn)
    else
      var (b, p) := Intn(d, pos, re.max - re.min + 1);
      if j < re.min + b then
        var once :- Gen(re.sub[0], lit, d, p);
        var more :- RepeatFrom(re, lit, j + 1, d, once.1);
        Ok((once.0 + more.0, more.1, more.2))
      else Ok(([], p, j))
  }

  /** The `default` branch: every child written once, in order, from child `i` on. */
  function GenEach(re: Regex, lit: Regex -> Str, i: nat, d: Draws, pos: nat): (r: Outcome<(Str, nat)>)
    requires i <= |re.sub|
    ensures r.Ok? ==> r.value.1 >= pos
    ensures r.Fail? ==> false
    decreases re, 1, |re.sub| - i
  {
    if i == |re.sub| then Ok(([], pos))
    else
      var once :- Gen(re.sub[i], lit, d, pos);
      var more :- GenEach(re, lit, i + 1, d, once.1);
      Ok((once.0 + more.0, more.1))
  }

  // ------------------------------------------------------------ language

  /** `r` lies in one of the [lo, hi] pairs of a class. */
  ghost predicate InClass(runes: seq<int>, r: int) {
    exists j :: 0 <= j < |runes| - 1 && j % 2 == 0 && runes[j] <= r <= runes[j + 1]
  }

  /** The strings a node matches, as UTF-8 bytes. Zero-width assertions are
      taken to match the empty string (the surrounding text they test is not
      modelled), and fold-case flags are ignored. */
  ghost predicate InLang(re: Regex, s: Str)
    decreases re, 2
  {
    match re.op
    case NoMatch => false
    case EmptyMatch => s == []
    case Literal => s == Utf8Of(re.runes)
    case CharClass => exists r :: InClass(re.runes, r) && s == RuneBytes(r)
    case AnyCharNotNL => exists r :: ValidRune(r) && r != 10 && s == RuneBytes(r)
    case AnyChar => exists r :: ValidRune(r) && s == RuneBytes(r)
    case Capture => |re.sub| == 1 && InLang(re.sub[0], s)
    case Star => |re.sub| == 1 && InStar(re.sub[0], s)
    case Plus => |re.sub| == 1 && exists k :: 0 <= k <= |s| && InLang(re.sub[0], s[..k]) && InStar(re.sub[0], s[k..])
    case Quest => |re.sub| == 1 && (s == [] || InLang(re.sub[0], s))
    case Repeat =>
      |re.sub| == 1 && exists n: nat :: re.min <= n && (re.max < 0 || n <= re.max) && InPow(re.sub[0], n, s)
    case Concat => InSeq(re, 0, s)
    case Alternate => exists i :: 0 <= i < |re.sub| && InLang(re.sub[i], s)
    case _ => s == []
  }

  /** `s` splits into pieces matched by children `i`, `i + 1`, ... in order. */
  ghost predicate InSeq(re: Regex, i: nat, s: Str)
    requires i <= |re.sub|
    decreases re, 1, |re.sub| - i
  {
    if i == |re.sub| then s == []
    else exists k :: 0 <= k <= |s| && InLang(re.sub[i], s[..k]) && InSeq(re, i + 1, s[k..])
  }

  /** `s` splits into any number of pieces matched by `r`. */
  ghost predicate InStar(r: Regex, s: Str)
    decreases r, 3, |s|
  {
    s == [] || exists k :: 0 < k <= |s| && InLang(r, s[..k]) && InStar(r, s[k..])
  }

  /** `s` splits into exactly `n` pieces matched by `r`. */
  ghost predicate InPow(r: Regex, n: nat, s: Str)
    decreases r, 3, n
  {
    if n == 0 then s == []
    else exists k :: 0 <= k <= |s| && InLang(r, s[..k]) && InPow(r, n - 1, s[k..])
  }

  /** The trees on which the walk is faithful to the language: literals render
      as their own text, classes are well-formed, repetitions are bounded,
      and there is no alternation, no dot and no node the walk cannot finish. */
  ghost predicate Supported(re: Regex, lit: Regex -> Str)
    decreases re
  {
    (forall i :: 0 <= i < |re.sub| ==> Supported(re.sub[i], lit)) &&
    match re.op
    case Literal => |re.sub| == 0 && lit(re) == Utf8Of(re.runes)
    case CharClass =>
      |re.sub| == 0 && |re.runes| > 0 && |re.runes| % 2 == 0 &&
      forall j :: 0 <= j < |re.runes| - 1 && j % 2 == 0 ==> re.runes[j] <= re.runes[j + 1]
    case Capture => |re.sub| == 1
    case Star => |re.sub| == 1
    case Plus => |re.sub| == 1
    case Quest => |re.sub| == 1
    case Repeat => |re.sub| == 1 && 0 <= re.min <= re.max
    case Concat => true
    case EmptyMatch => |re.sub| == 0
    case BeginLine => |re.sub| == 0
    case EndLine => |re.sub| == 0
    case BeginText => |re.sub| == 0
    case EndText => |re.sub| == 0
    case WordBoundary => |re.sub| == 0
    case NoWordBoundary => |re.sub| == 0
    case _ => false
  }

  // ------------------------------------------------------------ soundness

  lemma SplitAt(a: Str, b: Str)
    ensures (a + b)[..|a|] == a && (a + b)[|a|..] == b
  {
  }

  /** A node with one child writes what the child writes. */
  lemma OneChild(re: Regex, lit: Regex -> Str, d: Draws, pos: nat)
    requires |re.sub| == 1
    ensures GenEach(re, lit, 0, d, pos) == Gen(re.sub[0], lit, d, pos)
  {
    var first := Gen(re.sub[0], lit, d, pos);
    if first.Ok? {
      assert GenEach(re, lit, 1, d, first.value.1) == Ok(([], first.value.1));
      assert first.value.0 + [] == first.value.0;
    }
  }

  lemma LeafSound(re: Regex, lit: Regex -> Str, d: Draws, pos: nat)
    requires Supported(re, lit) && |re.sub| == 0
    ensures Leaf(re, lit, d, pos).Ok?
    ensures InLang(re, Leaf(re, lit, d, pos).value.0)
  {
    if re.op == CharClass {
      var (k, p) := Intn(d, pos, |re.runes|);
      var j := if k % 2 == 0 then k else k - 1;
      assert re.runes[j] <= re.runes[k] <= re.runes[j + 1];
      assert InClass(re.runes, re.runes[k]);
    }
  }

  /** A star, plus or question mark matches one copy of what its child matches. */
  lemma OneCopy(re: Regex, s: Str)
    requires re.op in {Star, Plus, Quest} && |re.sub| == 1 && InLang(re.sub[0], s)
    ensures InLang(re, s)
  {
    SplitAt(s, []);
    assert s + [] == s;
    if re.op == Star && s != [] {
      assert InStar(re.sub[0], s[|s|..]);
    }
  }

  /** On a supported tree the walk finishes and writes a string the expression
      matches, whatever the draws. */
  lemma {:induction false} GenSound(re: Regex, lit: Regex -> Str, d: Draws, pos: nat)
    requires Supported(re, lit)
    ensures Gen(re, lit, d, pos).Ok?
    ensures InLang(re, Gen(re, lit, d, pos).value.0)
    decreases re, 2, 0
  {
    if |re.sub| == 0 {
      LeafSound(re, lit, d, pos);
    } else if re.op == Repeat {
      RepeatSound(re, lit, 0, d, pos);
      var rep := RepeatFrom(re, lit, 0, d, pos).value;
      assert InPow(re.sub[0], rep.2 - 0, rep.0);
    } else if re.op == Concat {
      EachSound(re, lit, 0, d, pos);
    } else {
      OneChild(re, lit, d, pos);
      GenSound(re.sub[0], lit, d, pos);
      if re.op != Capture {
        OneCopy(re, Gen(re.sub[0], lit, d, pos).value.0);
      }
    }
  }

  lemma {:induction false} RepeatSound(re: Regex, lit: Regex -> Str, j: nat, d: Draws, pos: nat)
    requires Supported(re, lit) && re.op == Repeat && |re.sub| == 1 && j <= re.max
    ensures RepeatFrom(re, lit, j, d, pos).Ok?
    ensures InPow(re.sub[0], RepeatFrom(re, lit, j, d, pos).value.2 - j, RepeatFrom(re, lit, j, d, pos).value.0)
    decreases re, 1, re.max - j
  {
    var (b, p) := Intn(d, pos, re.max - re.min + 1);
    if j < re.min + b {
      GenSound(re.sub[0], lit, d, p);
      var once := Gen(re.sub[0], lit, d, p).value;
      RepeatSound(re, lit, j + 1, d, once.1);
      var more := RepeatFrom(re, lit, j + 1, d, once.1).value;
      SplitAt(once.0, more.0);
      assert more.2 - j - 1 == (more.2 - j) - 1;
    }
  }

  lemma {:induction false} EachSound(re: Regex, lit: Regex -> Str, i: nat, d: Draws, pos: nat)
    requires Supported(re, lit) && i <= |re.sub|
    ensures GenEach(re, lit, i, d, pos).Ok?
    ensures InSeq(re, i, GenEach(re, lit, i, d, pos).value.0)
    decreases re, 1, |re.sub| - i
  {
    if i < |re.sub| {
      GenSound(re.sub[i], lit, d, pos);
      var once := Gen(re.sub[i], lit, d, pos).value;
      EachSound(re, lit, i + 1, d, once.1);
      var more := GenEach(re, lit, i + 1, d, once.1).value;
      SplitAt(once.0, more.0);
    }
  }

  // ------------------------------------------------- choice and its limits

  /** Every endpoint of a class can be the one written: with the draw stream
      that always yields `k`, the walk writes rune `k` of the class. */
  lemma ClassPicksEveryEndpoint(re: Regex, lit: Regex -> Str, k: nat, pos: nat)
    requires re.op == CharClass && |re.sub| == 0 && k < |re.runes|
    ensures Gen(re, lit, (_ => k), pos) == Ok((RuneBytes(re.runes[k]), pos + 1))
  {
    var d: Draws := _ => k;
    assert Intn(d, pos, |re.runes|) == (k, pos + 1);
    assert Gen(re, lit, d, pos) == Leaf(re, lit, d, pos);
  }

  /** A repetition loop stops after between `min` and `max` iterations. */
  lemma RepeatCountBounds(re: Regex, lit: Regex -> Str, d: Draws, pos: nat)
    requires |re.sub| > 0 && 0 <= re.max
    requires RepeatFrom(re, lit, 0, d, pos).Ok?
    ensures re.min <= RepeatFrom(re, lit, 0, d, pos).value.2 <= re.max
  {
  }

  /** The node for a one-character literal. */
  function Char(c: int): Regex {
    Regex(Literal, [], [c], 0, 0)
  }

  /** `a|b` is written as "ab", which it does not match: every alternative is
      written, not one of them. */
  lemma AlternationWritesAll(lit: Regex -> Str, d: Draws, pos: nat)
    requires forall re :: lit(re) == Utf8Of(re.runes)
    ensures Gen(Regex(Alternate, [Char(97), Char(98)], [], 0, 0), lit, d, pos) == Ok((Txt("ab"), pos))
    ensures !InLang(Regex(Alternate, [Char(97), Char(98)], [], 0, 0), Txt("ab"))
  {
    var re := Regex(Alternate, [Char(97), Char(98)], [], 0, 0);
    var a := CharWritten(lit, 97, d, pos);
    var b := CharWritten(lit, 98, d, pos);
    GenPair(re, lit, d, pos, a, b);
    assert a + b == Txt("ab");
    AlternationRejects();
  }

  /** Neither branch of `a|b` matches "ab". */
  lemma AlternationRejects()
    ensures !InLang(Regex(Alternate, [Char(97), Char(98)], [], 0, 0), Txt("ab"))
  {
    var re := Regex(Alternate, [Char(97), Char(98)], [], 0, 0);
    forall i | 0 <= i < |re.sub|
      ensures !InLang(re.sub[i], Txt("ab"))
    {
      CharRejects(if i == 0 then 97 else 98);
    }
  }

  /** A one-character literal does not match the two-byte "ab". */
  lemma CharRejects(c: nat)
    requires c < 0x80
    ensures !InLang(Char(c), Txt("ab"))
  {
    assert Utf8Of([c]) == RuneBytes(c) + Utf8Of([]);
  }

  /** A node with two children that draw nothing writes their texts in order. */
  lemma GenPair(re: Regex, lit: Regex -> Str, d: Draws, pos: nat, x: Str, y: Str)
    requires |re.sub| == 2 && re.op != Repeat
    requires Gen(re.sub[0], lit, d, pos) == Ok((x, pos))
    requires Gen(re.sub[1], lit, d, pos) == Ok((y, pos))
    ensures Gen(re, lit, d, pos) == Ok((x + y, pos))
  {
    assert GenEach(re, lit, 2, d, pos) == Ok(([], pos));
    assert GenEach(re, lit, 1, d, pos) == Ok((y + [], pos));
    assert y + [] == y;
    assert GenEach(re, lit, 0, d, pos) == Ok((x + y, pos));
  }

  /** A one-character ASCII literal writes that character and draws nothing. */
  lemma CharWritten(lit: Regex -> Str, c: nat, d: Draws, pos: nat) returns (w: Str)
    requires c < 0x80
    requires forall re :: lit(re) == Utf8Of(re.runes)
    ensures w == [c] && Gen(Char(c), lit, d, pos) == Ok((w, pos))
  {
    w := [c];
    assert Utf8Of([c]) == RuneBytes(c) + Utf8Of([]);
    assert lit(Char(c)) == w;
  }

  /** `.` is written as the empty string, which it does not match. */
  lemma DotWritesNothing(lit: Regex -> Str, d: Draws, pos: nat)
    ensures Gen(Regex(AnyCharNotNL, [], [], 0, 0), lit, d, pos) == Ok(([], pos))
    ensures !InLang(Regex(AnyCharNotNL, [], [], 0, 0), [])
  {
  }

  /** `String()` writes a literal back in regular-expression syntax, escaping
      metacharacters: the literal "a.b" parsed from `a\.b` is written as the
      four bytes `a\.b`, which the literal does not match. */
  lemma EscapedLiteralMisses(lit: Regex -> Str, d: Draws, pos: nat)
    requires lit(Regex(Literal, [], [97, 46, 98], 0, 0)) == Txt("a\\.b")
    ensures Gen(Regex(Literal, [], [97, 46, 98], 0, 0), lit, d, pos) == Ok((Txt("a\\.b"), pos))
    ensures !InLang(Regex(Literal, [], [97, 46, 98], 0, 0), Txt("a\\.b"))
  {
    assert Utf8Of([98]) == RuneBytes(98) + Utf8Of([]);
    assert Utf8Of([46, 98]) == RuneBytes(46) + Utf8Of([98]);
    assert Utf8Of([97, 46, 98]) == RuneBytes(97) + Utf8Of([46, 98]);
    assert |Utf8Of([97, 46, 98])| == 3 != |Txt("a\\.b")|;
  }

  /** `x{2,}` (minimum 2, no maximum) makes the walk call `rand.Intn(-2)`,
      which panics. */
  lemma UnboundedRepeatPanics(lit: Regex -> Str, d: Draws, pos: nat)
    ensures Gen(Regex(Repeat, [Char(120)], [], 2, -1), lit, d, pos) == Crash(NonPositiveIntn)
  {
  }

  /** A childless no-match node sends the walk into endless recursion. (A
      class that excludes every rune stays a class without ranges, which
      `Leaf` writes as nothing.) */
  lemma NoMatchNeverReturns(lit: Regex -> Str, d: Draws, pos: nat)
    ensures Gen(Regex(NoMatch, [], [], 0, 0), lit, d, pos) == Crash(EndlessRecursion)
  {
  }
}
