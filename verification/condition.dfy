/** `evaluateSearchExpression`: a condition of a Sigma rule becomes a list of
    tokens, each either the name of a search (to be replaced later by the
    filters of that search) or a piece of glue: " and ", " or ", " not ", "(",
    ")". The tokens are appended to an accumulator `acc`, which the source
    inspects to decide whether glue is needed before a quantified name. */
module Condition {
  import opened Common

  /** The condition grammar the rule parser produces. */
  datatype SearchExpr =
    | And(children: seq<SearchExpr>)
    | Or(children: seq<SearchExpr>)
    | Not(expr: SearchExpr)
    | Ident(name: Str)
    | OneOfThem
    | AllOfThem
    | OneOfPattern(pattern: Str)
    | AllOfPattern(pattern: Str)

  type Tokens = seq<Str>

  /** What an expression is evaluated against: the names of the rule's
      searches in the order the map range visits them, and `path.Match` with
      its error result dropped (a malformed pattern matches nothing). */
  datatype Scope = Scope(names: seq<Str>, glob: (Str, Str) -> bool)

  const AndGlue: Str := Txt(" and ")
  const OrGlue: Str := Txt(" or ")
  const NotGlue: Str := Txt(" not ")
  const Open: Str := Txt("(")
  const Close: Str := Txt(")")

  /** The tokens after which the quantifiers add no glue. The source compares
      with the bare words "and" and "or", which it never appends itself. */
  const BareAnd: Str := Txt("and")
  const BareOr: Str := Txt("or")

  predicate Leads(t: Str) {
    t != BareAnd && t != BareOr && t != Open
  }

  /** A quantifier adds glue before a name when the tokens so far end in a
      token that invites it. */
  predicate NeedsGlue(acc: Tokens) {
    |acc| > 0 && Leads(acc[|acc| - 1])
  }

  lemma GlueLeads()
    ensures Leads(AndGlue) && Leads(OrGlue) && Leads(NotGlue) && Leads(Close)
    ensures Open != Close && AndGlue != Open && OrGlue != Open && NotGlue != Open
    ensures AndGlue != Close && OrGlue != Close && NotGlue != Close
  {
    assert AndGlue[1] != BareAnd[1];
    assert Open[0] == 40 && Close[0] == 41;
  }

  /** Wrapping the accumulator in parentheses wraps what is appended, and an
      opening parenthesis invites no glue. */
  lemma Wrapping(wrap: bool, acc: Tokens, t: Tokens)
    ensures CloseIf(wrap, OpenIf(wrap, acc) + t) == acc + Grouped(wrap, t)
    ensures NeedsGlue(OpenIf(wrap, acc)) == (NeedsGlue(acc) && !wrap)
  {
  }

  /** The names of the searches a pattern matches, in map order. */
  function Matching(s: Scope, pattern: Str): (ms: seq<Str>)
    ensures |ms| <= |s.names|
    ensures forall n :: n in ms <==> n in s.names && s.glob(pattern, n)
  {
    MatchingFrom(s.names, s.glob, pattern)
  }

  function MatchingFrom(ns: seq<Str>, glob: (Str, Str) -> bool, pattern: Str): (ms: seq<Str>)
    ensures |ms| <= |ns|
    ensures forall n :: n in ms <==> n in ns && glob(pattern, n)
  {
    if |ns| == 0 then []
    else
      var rest := MatchingFrom(ns[1..], glob, pattern);
      assert forall n :: n in ns <==> n == ns[0] || n in ns[1..];
      if glob(pattern, ns[0]) then [ns[0]] + rest else rest
  }

  /** No name occurs twice, as with the keys of a map. */
  predicate Distinct(ns: seq<Str>) {
    forall k, l :: 0 <= k < l < |ns| ==> ns[k] != ns[l]
  }

  /** `ms` is the subsequence of `ns` at the strictly increasing positions
      `idx`, and those are exactly the positions whose name `keep` accepts. */
  ghost predicate Picks(ns: seq<Str>, ms: seq<Str>, idx: seq<nat>, glob: (Str, Str) -> bool, pattern: Str) {
    |idx| == |ms| &&
    (forall k :: 0 <= k < |idx| ==> idx[k] < |ns| && ms[k] == ns[idx[k]]) &&
    (forall k, l :: 0 <= k < l < |idx| ==> idx[k] < idx[l]) &&
    (forall i :: 0 <= i < |ns| ==> (i in idx <==> glob(pattern, ns[i])))
  }

  /** The pattern loop visits the searches in map order and keeps each one
      the glob accepts, once: the matches are the accepted names in visiting
      order, and distinct names give distinct matches. */
  lemma MatchingOrder(s: Scope, p: Str) returns (idx: seq<nat>)
    ensures Picks(s.names, Matching(s, p), idx, s.glob, p)
    ensures Distinct(s.names) ==> Distinct(Matching(s, p))
  {
    idx := MatchingFromOrder(s.names, s.glob, p);
    var ms := Matching(s, p);
    if Distinct(s.names) {
      forall k, l | 0 <= k < l < |ms|
        ensures ms[k] != ms[l]
      {
        assert idx[k] < idx[l];
      }
    }
  }

  lemma {:induction false} MatchingFromOrder(ns: seq<Str>, glob: (Str, Str) -> bool, pattern: Str) returns (idx: seq<nat>)
    ensures Picks(ns, MatchingFrom(ns, glob, pattern), idx, glob, pattern)
    decreases |ns|
  {
    if |ns| == 0 {
      idx := [];
    } else {
      var mr := MatchingFrom(ns[1..], glob, pattern);
      var rest := MatchingFromOrder(ns[1..], glob, pattern);
      var shifted := Shifted(ns, mr, rest, glob, pattern);
      if glob(pattern, ns[0]) {
        idx := [0] + shifted;
        PickFirst(ns, mr, shifted, glob, pattern);
      } else {
        idx := shifted;
      }
    }
  }

  /** The positions picked from the tail of `ns`, counted in `ns`. */
  lemma Shifted(ns: seq<Str>, mr: seq<Str>, rest: seq<nat>, glob: (Str, Str) -> bool, pattern: Str) returns (sh: seq<nat>)
    requires |ns| > 0 && Picks(ns[1..], mr, rest, glob, pattern)
    ensures |sh| == |mr|
    ensures forall k :: 0 <= k < |sh| ==> 0 < sh[k] < |ns| && mr[k] == ns[sh[k]]
    ensures forall k, l :: 0 <= k < l < |sh| ==> sh[k] < sh[l]
    ensures forall i :: 1 <= i < |ns| ==> (i in sh <==> glob(pattern, ns[i]))
    ensures 0 !in sh
  {
    var tail := ns[1..];
    sh := ShiftUp(rest);
    ShiftUpIn(rest, 0);
    forall i | 1 <= i < |ns|
      ensures (i in sh <==> glob(pattern, ns[i]))
    {
      assert tail[i - 1] == ns[i];
      ShiftUpIn(rest, i - 1);
    }
    forall k | 0 <= k < |sh|
      ensures 0 < sh[k] < |ns| && mr[k] == ns[sh[k]]
    {
      assert tail[rest[k]] == ns[rest[k] + 1];
    }
  }

  /** Every position one further on. */
  function ShiftUp(idx: seq<nat>): (sh: seq<nat>)
    ensures |sh| == |idx| && forall k :: 0 <= k < |sh| ==> sh[k] == idx[k] + 1
  {
    seq(|idx|, k requires 0 <= k < |idx| => idx[k] + 1)
  }

  lemma ShiftUpIn(idx: seq<nat>, i: nat)
    ensures i + 1 in ShiftUp(idx) <==> i in idx
    ensures 0 !in ShiftUp(idx)
  {
    var sh := ShiftUp(idx);
    if i + 1 in sh {
      var k :| 0 <= k < |sh| && sh[k] == i + 1;
      assert idx[k] == i;
    }
    if i in idx {
      var k :| 0 <= k < |idx| && idx[k] == i;
      assert sh[k] == i + 1;
    }
  }

  /** Picking the first name as well puts position 0 in front. */
  lemma PickFirst(ns: seq<Str>, mr: seq<Str>, sh: seq<nat>, glob: (Str, Str) -> bool, pattern: Str)
    requires |ns| > 0 && glob(pattern, ns[0]) && |sh| == |mr|
    requires forall k :: 0 <= k < |sh| ==> 0 < sh[k] < |ns| && mr[k] == ns[sh[k]]
    requires forall k, l :: 0 <= k < l < |sh| ==> sh[k] < sh[l]
    requires forall i :: 1 <= i < |ns| ==> (i in sh <==> glob(pattern, ns[i]))
    ensures Picks(ns, [ns[0]] + mr, [0] + sh, glob, pattern)
  {
    var idx := [0] + sh;
    var ms := [ns[0]] + mr;
    forall k | 0 < k < |idx|
      ensures idx[k] == sh[k - 1] && ms[k] == mr[k - 1]
    {
    }
    forall i | 0 <= i < |ns|
      ensures (i in idx <==> glob(pattern, ns[i]))
    {
      if i > 0 {
        assert i in idx <==> i in sh;
      }
    }
  }

  // ------------------------------------------------------------- as written

  function OpenIf(wrap: bool, acc: Tokens): Tokens {
    if wrap then acc + [Open] else acc
  }

  function CloseIf(wrap: bool, acc: Tokens): Tokens {
    if wrap then acc + [Close] else acc
  }

  /** `evaluateSearchExpression(search, acc, isTopLevel)`. */
  function Walk(s: Scope, e: SearchExpr, acc: Tokens, top: bool): Tokens
    decreases e, 1
  {
    match e
    case And(cs) =>
      var wrap := !top && |cs| > 1;
      CloseIf(wrap, Each(s, e, 0, AndGlue, OpenIf(wrap, acc)))
    case Or(cs) =>
      var wrap := !top && |cs| > 1;
      CloseIf(wrap, Each(s, e, 0, OrGlue, OpenIf(wrap, acc)))
    case Not(x) => Walk(s, x, acc + [NotGlue], false)
    case Ident(n) => acc + [n]
    case OneOfThem =>
      var wrap := !top && |s.names| > 1;
      CloseIf(wrap, ThemLoop(s.names, 0, OrGlue, OpenIf(wrap, acc)))
    case AllOfThem =>
      var wrap := !top && |s.names| > 1;
      CloseIf(wrap, ThemLoop(s.names, 0, AndGlue, OpenIf(wrap, acc)))
    case OneOfPattern(p) =>
      var ms := Matching(s, p);
      var wrap := !top && |ms| > 1;
      CloseIf(wrap, PatternLoop(ms, 0, OrGlue, OpenIf(wrap, acc)))
    case AllOfPattern(p) =>
      var ms := Matching(s, p);
      var wrap := !top && |ms| > 1;
      CloseIf(wrap, PatternLoop(ms, 0, AndGlue, OpenIf(wrap, acc)))
  }

  /** The loop over the children of `And`/`Or` from child `i` on: the
      separator goes before every child but the first. */
  function Each(s: Scope, e: SearchExpr, i: nat, sep: Str, acc: Tokens): Tokens
    requires e.And? || e.Or?
    requires i <= |e.children|
    decreases e, 0, |e.children| - i
  {
    if i == |e.children| then acc
    else
      var before := if i > 0 then acc + [sep] else acc;
      Each(s, e, i + 1, sep, Walk(s, e.children[i], before, false))
  }

  /** The loop of `OneOfThem`/`AllOfThem`: glue goes before a name whenever
      the tokens so far invite it, including before the first name. */
  function ThemLoop(ns: seq<Str>, i: nat, glue: Str, acc: Tokens): Tokens
    requires i <= |ns|
    decreases |ns| - i
  {
    if i == |ns| then acc
    else ThemLoop(ns, i + 1, glue, (if NeedsGlue(acc) then acc + [glue] else acc) + [ns[i]])
  }

  /** The loop of `OneOfPattern`/`AllOfPattern`: as above, but never before
      the first matching name. */
  function PatternLoop(ms: seq<Str>, i: nat, glue: Str, acc: Tokens): Tokens
    requires i <= |ms|
    decreases |ms| - i
  {
    if i == |ms| then acc
    else PatternLoop(ms, i + 1, glue, (if i > 0 && NeedsGlue(acc) then acc + [glue] else acc) + [ms[i]])
  }

  // -------------------------------------------------------------- reference

  function Grouped(wrap: bool, t: Tokens): Tokens {
    if wrap then [Open] + t + [Close] else t
  }

  /** The names with glue before each one that follows a token inviting it;
      `lead` says whether the token before the first name does. */
  function Glued(ns: seq<Str>, glue: Str, lead: bool): Tokens
  {
    if |ns| == 0 then []
    else (if lead then [glue] else []) + [ns[0]] + Glued(ns[1..], glue, Leads(ns[0]))
  }

  /** The tokens an expression contributes, given whether the token before it
      invites glue; defined by composition instead of by accumulation. */
  function Emit(s: Scope, e: SearchExpr, top: bool, lead: bool): Tokens
    decreases e, 1
  {
    match e
    case And(cs) =>
      var wrap := !top && |cs| > 1;
      Grouped(wrap, EmitEach(s, e, 0, AndGlue, lead && !wrap))
    case Or(cs) =>
      var wrap := !top && |cs| > 1;
      Grouped(wrap, EmitEach(s, e, 0, OrGlue, lead && !wrap))
    case Not(x) => [NotGlue] + Emit(s, x, false, true)
    case Ident(n) => [n]
    case OneOfThem =>
      var wrap := !top && |s.names| > 1;
      Grouped(wrap, Glued(s.names, OrGlue, lead && !wrap))
    case AllOfThem =>
      var wrap := !top && |s.names| > 1;
      Grouped(wrap, Glued(s.names, AndGlue, lead && !wrap))
    case OneOfPattern(p) =>
      var ms := Matching(s, p);
      Grouped(!top && |ms| > 1, if |ms| == 0 then [] else [ms[0]] + Glued(ms[1..], OrGlue, Leads(ms[0])))
    case AllOfPattern(p) =>
      var ms := Matching(s, p);
      Grouped(!top && |ms| > 1, if |ms| == 0 then [] else [ms[0]] + Glued(ms[1..], AndGlue, Leads(ms[0])))
  }

  function EmitEach(s: Scope, e: SearchExpr, i: nat, sep: Str, lead: bool): Tokens
    requires e.And? || e.Or?
    requires i <= |e.children|
    decreases e, 0, |e.children| - i
  {
    if i == |e.children| then []
    else if i == 0 then Emit(s, e.children[0], false, lead) + EmitEach(s, e, 1, sep, true)
    else [sep] + Emit(s, e.children[i], false, true) + EmitEach(s, e, i + 1, sep, true)
  }

  // ----------------------------------------------------------- equivalence

  lemma {:induction false} ThemLoopGlued(ns: seq<Str>, i: nat, glue: Str, acc: Tokens)
    requires i <= |ns|
    ensures ThemLoop(ns, i, glue, acc) == acc + Glued(ns[i..], glue, NeedsGlue(acc))
    decreases |ns| - i
  {
    if i < |ns| {
      var next := (if NeedsGlue(acc) then acc + [glue] else acc) + [ns[i]];
      ThemLoopGlued(ns, i + 1, glue, next);
      assert ns[i..][1..] == ns[i + 1..];
    }
  }

  lemma PatternLoopGlued(ms: seq<Str>, glue: Str, acc: Tokens)
    ensures PatternLoop(ms, 0, glue, acc) ==
      acc + (if |ms| == 0 then [] else [ms[0]] + Glued(ms[1..], glue, Leads(ms[0])))
  {
    if |ms| > 0 {
      PatternLoopTail(ms, 1, glue, acc + [ms[0]]);
    }
  }

  lemma {:induction false} PatternLoopTail(ms: seq<Str>, i: nat, glue: Str, acc: Tokens)
    requires 0 < i <= |ms|
    ensures PatternLoop(ms, i, glue, acc) == acc + Glued(ms[i..], glue, NeedsGlue(acc))
    decreases |ms| - i
  {
    if i < |ms| {
      var next := (if NeedsGlue(acc) then acc + [glue] else acc) + [ms[i]];
      PatternLoopTail(ms, i + 1, glue, next);
      assert ms[i..][1..] == ms[i + 1..];
    }
  }

  /** What `evaluateSearchExpression` appends to the accumulator depends on
      the accumulator only through its last token: it is `Emit` of the
      expression, given whether that token invites glue. */
  lemma {:induction false} WalkEmit(s: Scope, e: SearchExpr, acc: Tokens, top: bool)
    ensures Walk(s, e, acc, top) == acc + Emit(s, e, top, NeedsGlue(acc))
    decreases e, 1
  {
    match e
    case And(cs) =>
      var wrap := !top && |cs| > 1;
      GlueLeads();
      EachEmit(s, e, 0, AndGlue, OpenIf(wrap, acc));
      Wrapping(wrap, acc, EmitEach(s, e, 0, AndGlue, NeedsGlue(acc) && !wrap));
    case Or(cs) =>
      var wrap := !top && |cs| > 1;
      GlueLeads();
      EachEmit(s, e, 0, OrGlue, OpenIf(wrap, acc));
      Wrapping(wrap, acc, EmitEach(s, e, 0, OrGlue, NeedsGlue(acc) && !wrap));
    case Not(x) =>
      GlueLeads();
      WalkEmit(s, x, acc + [NotGlue], false);
    case Ident(n) =>
    case OneOfThem =>
      ThemEmit(s, OrGlue, acc, top);
    case AllOfThem =>
      ThemEmit(s, AndGlue, acc, top);
    case OneOfPattern(p) =>
      PatternEmit(Matching(s, p), OrGlue, acc, top);
    case AllOfPattern(p) =>
      PatternEmit(Matching(s, p), AndGlue, acc, top);
  }

  lemma ThemEmit(s: Scope, glue: Str, acc: Tokens, top: bool)
    ensures var wrap := !top && |s.names| > 1;
      CloseIf(wrap, ThemLoop(s.names, 0, glue, OpenIf(wrap, acc))) ==
      acc + Grouped(wrap, Glued(s.names, glue, NeedsGlue(acc) && !wrap))
  {
    var wrap := !top && |s.names| > 1;
    ThemLoopGlued(s.names, 0, glue, OpenIf(wrap, acc));
    assert s.names[0..] == s.names;
    Wrapping(wrap, acc, Glued(s.names, glue, NeedsGlue(acc) && !wrap));
  }

  lemma PatternEmit(ms: seq<Str>, glue: Str, acc: Tokens, top: bool)
    ensures var wrap := !top && |ms| > 1;
      CloseIf(wrap, PatternLoop(ms, 0, glue, OpenIf(wrap, acc))) ==
      acc + Grouped(wrap, if |ms| == 0 then [] else [ms[0]] + Glued(ms[1..], glue, Leads(ms[0])))
  {
    var wrap := !top && |ms| > 1;
    PatternLoopGlued(ms, glue, OpenIf(wrap, acc));
    Wrapping(wrap, acc, if |ms| == 0 then [] else [ms[0]] + Glued(ms[1..], glue, Leads(ms[0])));
  }

  lemma {:induction false} EachEmit(s: Scope, e: SearchExpr, i: nat, sep: Str, acc: Tokens)
    requires e.And? || e.Or?
    requires i <= |e.children|
    requires Leads(sep)
    ensures Each(s, e, i, sep, acc) == acc + EmitEach(s, e, i, sep, NeedsGlue(acc))
    decreases e, 0, |e.children| - i
  {
    if i < |e.children| {
      var before := if i > 0 then acc + [sep] else acc;
      WalkEmit(s, e.children[i], before, false);
      var after := Walk(s, e.children[i], before, false);
      EachEmit(s, e, i + 1, sep, after);
      EmitEachLead(s, e, i + 1, sep, NeedsGlue(after));
      if i > 0 {
        EachStep(acc, sep, Emit(s, e.children[i], false, NeedsGlue(before)), EmitEach(s, e, i + 1, sep, true));
      }
    }
  }

  lemma EachStep(acc: Tokens, sep: Str, a: Tokens, b: Tokens)
    ensures acc + [sep] + a + b == acc + ([sep] + a + b)
  {
  }

  /** Past the first child the lead flag no longer matters. */
  lemma EmitEachLead(s: Scope, e: SearchExpr, i: nat, sep: Str, lead: bool)
    requires e.And? || e.Or?
    requires 0 < i <= |e.children|
    ensures EmitEach(s, e, i, sep, lead) == EmitEach(s, e, i, sep, true)
  {
  }

  // ------------------------------------------------------------ consequences

  /** `ns[0] glue ns[1] glue ...` as tokens. */
  function Interleave(ns: seq<Str>, glue: Str): Tokens
  {
    if |ns| <= 1 then ns else [ns[0], glue] + Interleave(ns[1..], glue)
  }

  lemma {:induction false} InterleaveJoin(ns: seq<Str>, glue: Str)
    ensures Concat(Interleave(ns, glue)) == Join(ns, glue)
  {
    if |ns| > 1 {
      InterleaveJoin(ns[1..], glue);
      ConcatCons(glue, Interleave(ns[1..], glue));
      ConcatCons(ns[0], [glue] + Interleave(ns[1..], glue));
      assert [ns[0], glue] + Interleave(ns[1..], glue) == [ns[0]] + ([glue] + Interleave(ns[1..], glue));
      if |ns| == 2 {
        assert ns[1..] == [ns[1]];
      }
    }
  }

  /** A name no quantifier refuses glue after, and that is no parenthesis. */
  predicate Plain(n: Str) {
    Leads(n) && n != Close
  }

  /** Between plain names glue goes exactly once. */
  lemma {:induction false} GluedPlain(ns: seq<Str>, glue: Str)
    requires |ns| > 0
    requires forall i :: 0 <= i < |ns| ==> Plain(ns[i])
    ensures [ns[0]] + Glued(ns[1..], glue, Leads(ns[0])) == Interleave(ns, glue)
  {
    if |ns| > 1 {
      GluedPlain(ns[1..], glue);
      assert ns[1..][1..] == ns[2..];
    }
  }

  /** All names of the rule's searches are plain. */
  predicate PlainNames(s: Scope) {
    forall i :: 0 <= i < |s.names| ==> Plain(s.names[i])
  }

  lemma MatchingPlain(s: Scope, p: Str)
    requires PlainNames(s)
    ensures forall i :: 0 <= i < |Matching(s, p)| ==> Plain(Matching(s, p)[i])
  {
    var ms := Matching(s, p);
    forall i | 0 <= i < |ms|
      ensures Plain(ms[i])
    {
      assert ms[i] in s.names;
    }
  }

  /** `1 of <pattern>` and `all of <pattern>` join the matching names with
      one separator between each two, in parentheses when nested and more
      than one name matches. */
  lemma PatternJoins(s: Scope, p: Str, all: bool, acc: Tokens, top: bool)
    requires PlainNames(s)
    ensures var ms := Matching(s, p);
      var glue := if all then AndGlue else OrGlue;
      Walk(s, if all then AllOfPattern(p) else OneOfPattern(p), acc, top) ==
        acc + Grouped(!top && |ms| > 1, Interleave(ms, glue))
  {
    var ms := Matching(s, p);
    var glue := if all then AndGlue else OrGlue;
    WalkEmit(s, if all then AllOfPattern(p) else OneOfPattern(p), acc, top);
    if |ms| > 0 {
      MatchingPlain(s, p);
      GluedPlain(ms, glue);
    }
  }

  /** At the top of a condition, `1 of them` and `all of them` join the names
      of all searches. */
  lemma TopLevelThemJoins(s: Scope, all: bool)
    requires PlainNames(s)
    ensures var glue := if all then AndGlue else OrGlue;
      Concat(Walk(s, if all then AllOfThem else OneOfThem, [], true)) == Join(s.names, glue)
  {
    var glue := if all then AndGlue else OrGlue;
    var e := if all then AllOfThem else OneOfThem;
    WalkEmit(s, e, [], true);
    assert Emit(s, e, true, false) == Glued(s.names, glue, false);
    if |s.names| > 0 {
      GluedPlain(s.names, glue);
    }
    assert Glued(s.names, glue, false) == Interleave(s.names, glue);
    assert Walk(s, e, [], true) == Interleave(s.names, glue);
    InterleaveJoin(s.names, glue);
  }

  /** After another token, `1 of them` over a single search still adds its
      glue: `a and 1 of them` becomes `a`, ` and `, ` or `, `b`. */
  lemma ThemAfterSeparator(a: Str, b: Str, glob: (Str, Str) -> bool)
    ensures Walk(Scope([b], glob), And([Ident(a), OneOfThem]), [], true) == [a, AndGlue, OrGlue, b]
  {
    var s := Scope([b], glob);
    var e := And([Ident(a), OneOfThem]);
    GlueLeads();
    WalkEmit(s, e, [], true);
    assert Glued([b], OrGlue, true) == [OrGlue, b];
    assert Emit(s, OneOfThem, false, true) == [OrGlue, b];
    assert EmitEach(s, e, 1, AndGlue, true) == [AndGlue] + [OrGlue, b] + EmitEach(s, e, 2, AndGlue, true);
    assert EmitEach(s, e, 0, AndGlue, false) == [a] + EmitEach(s, e, 1, AndGlue, true);
  }

  /** `not 1 of them` over a single search glues ` or ` after ` not `. */
  lemma NotThemGlues(b: Str, glob: (Str, Str) -> bool)
    ensures Walk(Scope([b], glob), Not(OneOfThem), [], true) == [NotGlue, OrGlue, b]
  {
    var s := Scope([b], glob);
    GlueLeads();
    WalkEmit(s, Not(OneOfThem), [], true);
    assert Glued([b], OrGlue, true) == [OrGlue, b];
    assert Emit(s, OneOfThem, false, true) == [OrGlue, b];
  }

  /** The identifiers of an expression are no parentheses. */
  ghost predicate ParenFree(e: SearchExpr)
    decreases e
  {
    match e
    case And(cs) => forall i :: 0 <= i < |cs| ==> ParenFree(cs[i])
    case Or(cs) => forall i :: 0 <= i < |cs| ==> ParenFree(cs[i])
    case Not(x) => ParenFree(x)
    case Ident(n) => n != Open && n != Close
    case _ => true
  }

  /** The parenthesis weight of a token: 1 for "(", -1 for ")", 0 otherwise. */
  function TokenWeight(t: Str): int {
    if t == Open then 1 else if t == Close then -1 else 0
  }

  /** The number of "(" tokens minus the number of ")" tokens. */
  function Weight(t: Tokens): int {
    if |t| == 0 then 0 else TokenWeight(t[0]) + Weight(t[1..])
  }

  lemma {:induction false} WeightAppend(a: Tokens, b: Tokens)
    ensures Weight(a + b) == Weight(a) + Weight(b)
    decreases |a|
  {
    if |a| == 0 {
      assert a + b == b;
    } else {
      assert (a + b)[1..] == a[1..] + b;
      WeightAppend(a[1..], b);
    }
  }

  /** Parenthesis-free names give glued lists of weight 0. */
  lemma {:induction false} GluedWeight(ns: seq<Str>, glue: Str, lead: bool)
    requires glue == AndGlue || glue == OrGlue
    requires forall i :: 0 <= i < |ns| ==> ns[i] != Open && ns[i] != Close
    ensures Weight(Glued(ns, glue, lead)) == 0
    decreases |ns|
  {
    if |ns| > 0 {
      GlueLeads();
      var pre := (if lead then [glue] else []) + [ns[0]];
      assert Weight(pre) == 0 by {
        var one: Tokens := [ns[0]];
        assert one[1..] == [];
        assert Weight(one) == TokenWeight(ns[0]) + Weight([]) == 0;
        if lead {
          assert pre == [glue, ns[0]] && pre[1..] == one;
          assert Weight(pre) == TokenWeight(glue) + Weight(one);
        } else {
          assert pre == [ns[0]];
        }
      }
      GluedWeight(ns[1..], glue, Leads(ns[0]));
      WeightAppend(pre, Glued(ns[1..], glue, Leads(ns[0])));
    }
  }

  /** Every parenthesis a condition opens it also closes. */
  lemma {:induction false} Balanced(s: Scope, e: SearchExpr, top: bool, lead: bool)
    requires forall i :: 0 <= i < |s.names| ==> s.names[i] != Open && s.names[i] != Close
    requires ParenFree(e)
    ensures Weight(Emit(s, e, top, lead)) == 0
    decreases e, 1
  {
    match e
    case And(cs) =>
      var wrap := !top && |cs| > 1;
      BalancedEach(s, e, 0, AndGlue, lead && !wrap);
      GroupedWeight(wrap, EmitEach(s, e, 0, AndGlue, lead && !wrap));
    case Or(cs) =>
      var wrap := !top && |cs| > 1;
      BalancedEach(s, e, 0, OrGlue, lead && !wrap);
      GroupedWeight(wrap, EmitEach(s, e, 0, OrGlue, lead && !wrap));
    case Not(x) =>
      Balanced(s, x, false, true);
      GlueLeads();
      WeightAppend([NotGlue], Emit(s, x, false, true));
    case Ident(n) =>
      assert Emit(s, e, top, lead)[1..] == [];
    case OneOfThem =>
      var wrap := !top && |s.names| > 1;
      GluedWeight(s.names, OrGlue, lead && !wrap);
      GroupedWeight(wrap, Glued(s.names, OrGlue, lead && !wrap));
    case AllOfThem =>
      var wrap := !top && |s.names| > 1;
      GluedWeight(s.names, AndGlue, lead && !wrap);
      GroupedWeight(wrap, Glued(s.names, AndGlue, lead && !wrap));
    case OneOfPattern(p) =>
      PatternWeight(s, p, OrGlue, top);
    case AllOfPattern(p) =>
      PatternWeight(s, p, AndGlue, top);
  }

  lemma GroupedWeight(wrap: bool, t: Tokens)
    ensures Weight(Grouped(wrap, t)) == Weight(t)
  {
    if wrap {
      GlueLeads();
      WeightAppend([Open], t);
      WeightAppend([Open] + t, [Close]);
      assert [Close][1..] == [];
    }
  }

  lemma {:induction false} BalancedEach(s: Scope, e: SearchExpr, i: nat, sep: Str, lead: bool)
    requires e.And? || e.Or?
    requires i <= |e.children|
    requires sep == AndGlue || sep == OrGlue
    requires forall i :: 0 <= i < |s.names| ==> s.names[i] != Open && s.names[i] != Close
    requires ParenFree(e)
    ensures Weight(EmitEach(s, e, i, sep, lead)) == 0
    decreases e, 0, |e.children| - i
  {
    if i < |e.children| {
      var child := e.children[i];
      assert ParenFree(child);
      BalancedEach(s, e, i + 1, sep, true);
      if i == 0 {
        Balanced(s, child, false, lead);
        WeightAppend(Emit(s, child, false, lead), EmitEach(s, e, 1, sep, true));
      } else {
        GlueLeads();
        Balanced(s, child, false, true);
        WeightAppend([sep], Emit(s, child, false, true));
        WeightAppend([sep] + Emit(s, child, false, true), EmitEach(s, e, i + 1, sep, true));
      }
    }
  }

  lemma PatternWeight(s: Scope, p: Str, glue: Str, top: bool)
    requires glue == AndGlue || glue == OrGlue
    requires forall i :: 0 <= i < |s.names| ==> s.names[i] != Open && s.names[i] != Close
    ensures var ms := Matching(s, p);
      Weight(Grouped(!top && |ms| > 1, if |ms| == 0 then [] else [ms[0]] + Glued(ms[1..], glue, Leads(ms[0])))) == 0
  {
    var ms := Matching(s, p);
    var t := if |ms| == 0 then [] else [ms[0]] + Glued(ms[1..], glue, Leads(ms[0]));
    if |ms| > 0 {
      forall i | 0 <= i < |ms|
        ensures ms[i] != Open && ms[i] != Close
      {
        assert ms[i] in s.names;
      }
      GluedWeight(ms[1..], glue, Leads(ms[0]));
      WeightAppend([ms[0]], Glued(ms[1..], glue, Leads(ms[0])));
    }
    GroupedWeight(!top && |ms| > 1, t);
  }
}
