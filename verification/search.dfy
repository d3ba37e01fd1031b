/** `evaluateSearch`, `getMatcherValues` and `matcherMatchesValues`: each field
    matcher of a search becomes one filter string, built from the comparator
    its modifiers select, the values it lists (with placeholders expanded) and
    the event fields its field maps to. */
module SearchEval {
  import opened Common
  import opened Synthetic
  import opened Modifiers
  import opened Condition

  /** A value as the rule parser delivers it. `Other` stands for any
      non-scalar value (a list or a map). */
  datatype Value = VString(s: Str) | VInt(i: int) | VFloat(f: real) | VBool(b: bool) | VNil | VOther

  /** One `field|modifiers: values` line of a search. */
  datatype FieldMatcher = FieldMatcher(field: Str, modifiers: seq<Str>, values: seq<Value>)

  /** A search: keywords, or a list of event matchers, each a list of field matchers. */
  datatype Search = Search(keywords: seq<Value>, eventMatchers: seq<seq<FieldMatcher>>)

  /** The evaluator's configuration and the library behaviour it relies on:
      the field mappings, the optional placeholder expander (`None` inside
      `Some` when it returns an error), case sensitivity, the parsers the
      synthetic generator uses, and `%v` for floating-point numbers. */
  datatype Env = Env(
    fieldmappings: map<Str, seq<Str>>,
    expander: Option<Str -> Option<seq<Str>>>,
    caseSensitive: bool,
    parsers: Parsers,
    formatFloat: real -> Str)

  // ------------------------------------------------------- getMatcherValues

  /** `%v` of a scalar value, "null" for nil; non-scalars have no text. */
  function ScalarText(env: Env, v: Value): Option<Str>
  {
    match v
    case VString(s) => Some(s)
    case VInt(i) => Some(IntText(i))
    case VFloat(f) => Some(env.formatFloat(f))
    case VBool(b) => Some(if b then Txt("true") else Txt("false"))
    case VNil => Some(Txt("null"))
    case VOther => None
  }

  /** A text that begins and ends with `%` names a placeholder; a lone `%`
      does both. */
  predicate IsPlaceholder(s: Str) {
    HasPrefix(s, Txt("%")) && HasSuffix(s, Txt("%"))
  }

  /** The texts one value stands for. */
  function ExpandValue(env: Env, v: Value): Outcome<seq<Str>>
  {
    match ScalarText(env, v)
    case None => Fail(NotScalar)
    case Some(s) =>
      if !IsPlaceholder(s) then Ok([s])
      else if env.expander.None? then Fail(NoPlaceholderExpander(s))
      else match env.expander.value(s)
        case None => Fail(PlaceholderExpansionFailed(s))
        case Some(xs) => Ok(xs)
  }

  /** The loop of `getMatcherValues` from value `i` on, with the texts so far. */
  function ValuesFrom(env: Env, vs: seq<Value>, i: nat, acc: seq<Str>): Outcome<seq<Str>>
    requires i <= |vs|
    decreases |vs| - i
  {
    if i == |vs| then Ok(acc)
    else
      var xs :- ExpandValue(env, vs[i]);
      ValuesFrom(env, vs, i + 1, acc + xs)
  }

  /** `getMatcherValues`. */
  function GetMatcherValues(env: Env, vs: seq<Value>): Outcome<seq<Str>>
  {
    ValuesFrom(env, vs, 0, [])
  }

  /** Reference: the expansions of all values, concatenated; the first value
      that cannot be expanded decides the error. */
  function ExpandAll(env: Env, vs: seq<Value>): Outcome<seq<Str>>
  {
    if |vs| == 0 then Ok([])
    else
      var xs :- ExpandValue(env, vs[0]);
      var rest :- ExpandAll(env, vs[1..]);
      Ok(xs + rest)
  }

  lemma {:induction false} ValuesFromExpandAll(env: Env, vs: seq<Value>, i: nat, acc: seq<Str>)
    requires i <= |vs|
    ensures var r := ValuesFrom(env, vs, i, acc);
      var e := ExpandAll(env, vs[i..]);
      (r.Ok? <==> e.Ok?) && (e.Ok? ==> r.value == acc + e.value) && (!e.Ok? ==> r == e)
    decreases |vs| - i
  {
    if i < |vs| {
      assert vs[i..][1..] == vs[i + 1..];
      var x := ExpandValue(env, vs[i]);
      if x.Ok? {
        ValuesFromExpandAll(env, vs, i + 1, acc + x.value);
      }
    } else {
      assert acc + [] == acc;
    }
  }

  /** `getMatcherValues` concatenates the expansions of the values in order
      and stops at the first value it cannot expand. */
  lemma MatcherValuesAreExpansions(env: Env, vs: seq<Value>)
    ensures var r := GetMatcherValues(env, vs);
      (r.Ok? <==> ExpandAll(env, vs).Ok?) && r == ExpandAll(env, vs)
  {
    ValuesFromExpandAll(env, vs, 0, []);
    assert vs[0..] == vs;
    var e := ExpandAll(env, vs);
    if e.Ok? {
      assert [] + e.value == e.value;
    }
  }

  /** Without placeholders, the values are the texts of the scalars, one each. */
  lemma {:induction false} PlainValues(env: Env, vs: seq<Value>)
    requires forall i :: 0 <= i < |vs| ==> ScalarText(env, vs[i]).Some? && !IsPlaceholder(ScalarText(env, vs[i]).value)
    ensures ExpandAll(env, vs).Ok?
    ensures |ExpandAll(env, vs).value| == |vs|
    ensures forall i :: 0 <= i < |vs| ==> ExpandAll(env, vs).value[i] == ScalarText(env, vs[i]).value
  {
    if |vs| > 0 {
      PlainValues(env, vs[1..]);
      var rest := ExpandAll(env, vs[1..]).value;
      assert ExpandAll(env, vs).value == [ScalarText(env, vs[0]).value] + rest;
      forall i | 0 < i < |vs|
        ensures ExpandAll(env, vs).value[i] == ScalarText(env, vs[i]).value
      {
        assert vs[1..][i - 1] == vs[i];
      }
    }
  }

  /** A value that is no scalar makes the expansion fail. */
  lemma {:induction false} NonScalarFails(env: Env, vs: seq<Value>, k: nat)
    requires k < |vs| && vs[k] == VOther
    ensures ExpandAll(env, vs).Fail?
  {
    if k > 0 {
      assert vs[1..][k - 1] == vs[k];
      NonScalarFails(env, vs[1..], k - 1);
    }
  }

  /** A placeholder with no expander configured is an error naming it. */
  lemma PlaceholderNeedsExpander(env: Env, s: Str)
    requires IsPlaceholder(s) && env.expander.None?
    ensures GetMatcherValues(env, [VString(s)]) == Fail(NoPlaceholderExpander(s))
  {
  }

  lemma LonePercentIsPlaceholder()
    ensures IsPlaceholder(Txt("%"))
  {
  }

  // --------------------------------------------------- matcherMatchesValues

  function Sep(all: bool): Str {
    if all then AndGlue else OrGlue
  }

  /** The inner loop: the comparator is called on one field and the values
      from `j` on; the filters are collected with the separator between them.
      A nil comparator panics at its first call. */
  function ValuesLoop(comp: Option<Pipeline>, field: Str, vals: seq<Str>, j: nat, all: bool,
                      env: Env, d: Draws, pos: nat, subs: seq<Str>): Outcome<(seq<Str>, nat)>
    requires j <= |vals|
    decreases |vals| - j
  {
    if j == |vals| then Ok((subs, pos))
    else if comp.None? then Crash(NilComparatorCall)
    else
      var fp :- Apply(comp.value, Text(field), Text(vals[j]), env.parsers, d, pos);
      ValuesLoop(comp, field, vals, j + 1, all, env, d, fp.1, if j == 0 then subs + [fp.0] else subs + [Sep(all), fp.0])
  }

  /** The outer loop over the fields from `i` on: the filters of one field are
      parenthesised when there are several values, and " or " follows every
      field but the last. */
  function FieldsLoop(comp: Option<Pipeline>, fields: seq<Str>, i: nat, vals: seq<Str>, all: bool,
                      env: Env, d: Draws, pos: nat, filters: seq<Str>): Outcome<(seq<Str>, nat)>
    requires i <= |fields|
    decreases |fields| - i
  {
    if i == |fields| then Ok((filters, pos))
    else
      var sp :- ValuesLoop(comp, fields[i], vals, 0, all, env, d, pos, []);
      FieldsLoop(comp, fields, i + 1, vals, all, env, d, sp.1, AddField(filters, sp.0, |vals|, i < |fields| - 1))
  }

  /** The tokens after one field: its filters, as one parenthesised token when
      there are several values, then " or " unless it is the last field. */
  function AddField(filters: seq<Str>, subs: seq<Str>, nvals: nat, more: bool): seq<Str>
  {
    var withField := if nvals > 1 then filters + [Open + Concat(subs) + Close] else filters + subs;
    if more then withField + [OrGlue] else withField
  }

  /** `matcherMatchesValues`. */
  function MatcherMatchesValues(comp: Option<Pipeline>, vals: seq<Str>, fields: seq<Str>, all: bool,
                                env: Env, d: Draws, pos: nat): Outcome<(Str, nat)>
  {
    var fp :- FieldsLoop(comp, fields, 0, vals, all, env, d, pos, []);
    Ok((if |fields| > 1 then Open + Concat(fp.0) + Close else Concat(fp.0), fp.1))
  }

  // ---------------------------------------------------------- its reference

  /** The comparator's output for one field and each value, in call order. */
  function Row(p: Pipeline, field: Str, vals: seq<Str>, env: Env, d: Draws, pos: nat): Outcome<(seq<Str>, nat)>
  {
    if |vals| == 0 then Ok(([], pos))
    else
      var fq :- Apply(p, Text(field), Text(vals[0]), env.parsers, d, pos);
      var rest :- Row(p, field, vals[1..], env, d, fq.1);
      Ok(([fq.0] + rest.0, rest.1))
  }

  /** The rows of all fields, in call order. */
  function Grid(p: Pipeline, fields: seq<Str>, vals: seq<Str>, env: Env, d: Draws, pos: nat): Outcome<(seq<seq<Str>>, nat)>
  {
    if |fields| == 0 then Ok(([], pos))
    else
      var row :- Row(p, fields[0], vals, env, d, pos);
      var rest :- Grid(p, fields[1..], vals, env, d, row.1);
      Ok(([row.0] + rest.0, rest.1))
  }

  function Paren(wrap: bool, s: Str): Str {
    if wrap then Open + s + Close else s
  }

  /** The text of each field: its filters joined by the separator,
      parenthesised when there are several values. */
  function FieldTexts(grid: seq<seq<Str>>, nvals: nat, all: bool): seq<Str>
  {
    if |grid| == 0 then [] else [Paren(nvals > 1, Join(grid[0], Sep(all)))] + FieldTexts(grid[1..], nvals, all)
  }

  /** The separator before each part. */
  function SepText(parts: seq<Str>, sep: Str): Str
  {
    if |parts| == 0 then [] else sep + parts[0] + SepText(parts[1..], sep)
  }

  lemma {:induction false} JoinHead(parts: seq<Str>, sep: Str)
    requires |parts| > 0
    ensures Join(parts, sep) == parts[0] + SepText(parts[1..], sep)
  {
    if |parts| > 1 {
      JoinHead(parts[1..], sep);
      assert parts[1..][1..] == parts[2..];
    }
  }

  lemma ConcatOne(x: Str)
    ensures Concat([x]) == x
  {
  }

  lemma JoinStepFirst(subs: seq<Str>, f: Str, rest: seq<Str>, sep: Str)
    ensures Concat(subs + [f]) + SepText(rest, sep) == Concat(subs) + Join([f] + rest, sep)
  {
    ConcatAppend(subs, [f]);
    ConcatOne(f);
    JoinHead([f] + rest, sep);
    assert ([f] + rest)[1..] == rest;
  }

  lemma JoinStepNext(subs: seq<Str>, f: Str, rest: seq<Str>, sep: Str)
    ensures Concat(subs + [sep, f]) + SepText(rest, sep) == Concat(subs) + SepText([f] + rest, sep)
  {
    ConcatAppend(subs, [sep, f]);
    ConcatCons(sep, [f]);
    ConcatOne(f);
    assert [sep, f] == [sep] + [f];
    assert ([f] + rest)[1..] == rest;
  }

  lemma {:induction false} ValuesLoopRow(p: Pipeline, field: Str, vals: seq<Str>, j: nat, all: bool,
                                         env: Env, d: Draws, pos: nat, subs: seq<Str>)
    requires j <= |vals|
    ensures var r := ValuesLoop(Some(p), field, vals, j, all, env, d, pos, subs);
      var w := Row(p, field, vals[j..], env, d, pos);
      (r.Ok? <==> w.Ok?) && (!w.Ok? ==> r == w) &&
      (w.Ok? ==>
        (r.value.1 == w.value.1 &&
         Concat(r.value.0) == Concat(subs) + (if j == 0 then Join(w.value.0, Sep(all)) else SepText(w.value.0, Sep(all)))))
    decreases |vals| - j
  {
    if j == |vals| {
      assert Concat(subs) + [] == Concat(subs);
    } else {
      var tail := vals[j..];
      assert tail[0] == vals[j] && tail[1..] == vals[j + 1..];
      var a := Apply(p, Text(field), Text(vals[j]), env.parsers, d, pos);
      if a.Ok? {
        var f := a.value.0;
        var next := if j == 0 then subs + [f] else subs + [Sep(all), f];
        ValuesLoopRow(p, field, vals, j + 1, all, env, d, a.value.1, next);
        var rest := Row(p, field, vals[j + 1..], env, d, a.value.1);
        if rest.Ok? {
          assert Row(p, field, tail, env, d, pos) == Ok(([f] + rest.value.0, rest.value.1));
          if j == 0 {
            JoinStepFirst(subs, f, rest.value.0, Sep(all));
          } else {
            JoinStepNext(subs, f, rest.value.0, Sep(all));
          }
        }
      }
    }
  }

  /** The text one field adds: one token in parentheses, or its filters as they are. */
  lemma FieldStep(filters: seq<Str>, subs: seq<Str>, nvals: nat, more: bool, text: Str, rest: Str)
    requires text == Paren(nvals > 1, Concat(subs))
    ensures Concat(AddField(filters, subs, nvals, more)) + rest ==
      Concat(filters) + text + (if more then OrGlue + rest else rest)
  {
    var withField := if nvals > 1 then filters + [Open + Concat(subs) + Close] else filters + subs;
    if nvals > 1 {
      ConcatAppend(filters, [Open + Concat(subs) + Close]);
      ConcatOne(Open + Concat(subs) + Close);
    } else {
      ConcatAppend(filters, subs);
    }
    if more {
      ConcatAppend(withField, [OrGlue]);
      ConcatOne(OrGlue);
    }
  }

  lemma {:induction false} FieldsLoopGrid(p: Pipeline, fields: seq<Str>, i: nat, vals: seq<Str>, all: bool,
                                          env: Env, d: Draws, pos: nat, filters: seq<Str>)
    requires i <= |fields|
    ensures var r := FieldsLoop(Some(p), fields, i, vals, all, env, d, pos, filters);
      var g := Grid(p, fields[i..], vals, env, d, pos);
      (r.Ok? <==> g.Ok?) && (!g.Ok? ==> r.PropagateFailure<(seq<seq<Str>>, nat)>() == g) &&
      (g.Ok? ==>
        (r.value.1 == g.value.1 &&
         Concat(r.value.0) == Concat(filters) + Join(FieldTexts(g.value.0, |vals|, all), OrGlue)))
    decreases |fields| - i
  {
    if i == |fields| {
      assert Concat(filters) + [] == Concat(filters);
    } else {
      var tail := fields[i..];
      assert tail[0] == fields[i] && tail[1..] == fields[i + 1..];
      ValuesLoopRow(p, fields[i], vals, 0, all, env, d, pos, []);
      assert vals[0..] == vals;
      var v := ValuesLoop(Some(p), fields[i], vals, 0, all, env, d, pos, []);
      if v.Ok? {
        var subs := v.value.0;
        var row := Row(p, fields[i], vals, env, d, pos).value.0;
        var more := i < |fields| - 1;
        var next := AddField(filters, subs, |vals|, more);
        FieldsLoopGrid(p, fields, i + 1, vals, all, env, d, v.value.1, next);
        var rest := Grid(p, fields[i + 1..], vals, env, d, v.value.1);
        if rest.Ok? {
          assert Concat(subs) == Join(row, Sep(all));
          assert Grid(p, tail, vals, env, d, pos) == Ok(([row] + rest.value.0, rest.value.1));
          GridLength(p, fields[i + 1..], vals, env, d, v.value.1);
          var text := Paren(|vals| > 1, Join(row, Sep(all)));
          var texts := FieldTexts(rest.value.0, |vals|, all);
          assert ([row] + rest.value.0)[1..] == rest.value.0;
          assert FieldTexts([row] + rest.value.0, |vals|, all) == [text] + texts;
          FieldTextsLength(rest.value.0, |vals|, all);
          FieldStep(filters, subs, |vals|, more, text, Join(texts, OrGlue));
          JoinGlue(Concat(filters), Concat(next), text, texts, more,
            Concat(FieldsLoop(Some(p), fields, i + 1, vals, all, env, d, v.value.1, next).value.0));
        }
      }
    }
  }

  /** The text of the remaining fields, one field further on. */
  lemma JoinGlue(c: Str, added: Str, text: Str, texts: seq<Str>, more: bool, out: Str)
    requires more <==> |texts| > 0
    requires out == added + Join(texts, OrGlue)
    requires added + Join(texts, OrGlue) == c + text + (if more then OrGlue + Join(texts, OrGlue) else Join(texts, OrGlue))
    ensures out == c + Join([text] + texts, OrGlue)
  {
    var j := Join(texts, OrGlue);
    assert ([text] + texts)[1..] == texts;
    if more {
      calc {
        out;
        c + text + (OrGlue + j);
        { SeqAssoc(c, text, OrGlue, j); }
        c + (text + OrGlue + j);
        c + Join([text] + texts, OrGlue);
      }
    } else {
      calc {
        out;
        c + text + j;
        { assert j == []; }
        c + text;
        { assert [text] + texts == [text]; }
        c + Join([text] + texts, OrGlue);
      }
    }
  }

  lemma SeqAssoc(a: Str, b: Str, c: Str, d: Str)
    ensures a + b + (c + d) == a + (b + c + d)
  {
  }

  lemma {:induction false} FieldTextsLength(grid: seq<seq<Str>>, nvals: nat, all: bool)
    ensures |FieldTexts(grid, nvals, all)| == |grid|
  {
    if |grid| > 0 {
      FieldTextsLength(grid[1..], nvals, all);
    }
  }

  lemma {:induction false} GridLength(p: Pipeline, fields: seq<Str>, vals: seq<Str>, env: Env, d: Draws, pos: nat)
    ensures Grid(p, fields, vals, env, d, pos).Ok? ==> |Grid(p, fields, vals, env, d, pos).value.0| == |fields|
  {
    if |fields| > 0 {
      var r := Row(p, fields[0], vals, env, d, pos);
      if r.Ok? {
        GridLength(p, fields[1..], vals, env, d, r.value.1);
      }
    }
  }

  /** `matcherMatchesValues` with a comparator: the comparator's filters of
      each field joined by " and " (all values must match) or " or ", in
      parentheses when there are several values; the fields joined by " or ",
      in parentheses when there are several fields. */
  lemma MatcherAssembles(p: Pipeline, vals: seq<Str>, fields: seq<Str>, all: bool, env: Env, d: Draws, pos: nat)
    ensures var r := MatcherMatchesValues(Some(p), vals, fields, all, env, d, pos);
      var g := Grid(p, fields, vals, env, d, pos);
      (r.Ok? <==> g.Ok?) && (!g.Ok? ==> r.PropagateFailure<(seq<seq<Str>>, nat)>() == g) &&
      (g.Ok? ==> r.value == (Paren(|fields| > 1, Join(FieldTexts(g.value.0, |vals|, all), OrGlue)), g.value.1))
  {
    FieldsLoopGrid(p, fields, 0, vals, all, env, d, pos, []);
    assert fields[0..] == fields;
    var g := Grid(p, fields, vals, env, d, pos);
    if g.Ok? {
      var j := Join(FieldTexts(g.value.0, |vals|, all), OrGlue);
      assert Concat([]) + j == j;
    }
  }

  /** The nil comparator left by a rejected modifier list panics as soon as
      there is a value to compare. */
  lemma NilComparatorPanics(vals: seq<Str>, fields: seq<Str>, all: bool, env: Env, d: Draws, pos: nat)
    requires |vals| > 0 && |fields| > 0
    ensures MatcherMatchesValues(None, vals, fields, all, env, d, pos) == Crash(NilComparatorCall)
  {
  }

  /** With no values no comparator is called, yet " or " still separates the
      fields: two fields give "( or )". */
  lemma {:induction false} NoValuesLeavesSeparators(comp: Option<Pipeline>, fields: seq<Str>, i: nat, all: bool,
                                                    env: Env, d: Draws, pos: nat, filters: seq<Str>)
    requires i <= |fields|
    ensures FieldsLoop(comp, fields, i, [], all, env, d, pos, filters) ==
      Ok((filters + Separators(|fields| - i), pos))
    decreases |fields| - i
  {
    if i < |fields| {
      assert ValuesLoop(comp, fields[i], [], 0, all, env, d, pos, []) == Ok(([], pos));
      var next := AddField(filters, [], 0, i < |fields| - 1);
      assert FieldsLoop(comp, fields, i, [], all, env, d, pos, filters) ==
        FieldsLoop(comp, fields, i + 1, [], all, env, d, pos, next);
      NoValuesLeavesSeparators(comp, fields, i + 1, all, env, d, pos, next);
      if i < |fields| - 1 {
        assert next == filters + [OrGlue];
        assert Separators(|fields| - i) == [OrGlue] + Separators(|fields| - i - 1);
        assert filters + [OrGlue] + Separators(|fields| - i - 1) == filters + ([OrGlue] + Separators(|fields| - i - 1));
      } else {
        assert next == filters + [];
      }
    } else {
      assert filters + [] == filters;
    }
  }

  /** The tokens " or " between `n` fields. */
  function Separators(n: nat): seq<Str>
  {
    if n <= 1 then [] else [OrGlue] + Separators(n - 1)
  }

  // --------------------------------------------------------- evaluateSearch

  /** A trailing `all` modifier is removed and makes all values required. */
  function SplitAll(mods: seq<Str>): (r: (seq<Str>, bool))
    ensures r.1 <==> |mods| > 0 && mods[|mods| - 1] == Txt("all")
    ensures mods == r.0 + (if r.1 then [Txt("all")] else [])
  {
    if |mods| > 0 && mods[|mods| - 1] == Txt("all") then (mods[..|mods| - 1], true) else (mods, false)
  }

  /** The comparator of a modifier list; its error is dropped and leaves a nil
      comparator. */
  function ComparatorFor(env: Env, mods: seq<Str>): Option<Pipeline>
  {
    var r := if env.caseSensitive then GetComparatorCaseSensitive(mods) else GetComparator(mods);
    if r.Ok? then Some(r.value) else None
  }

  /** The event fields a rule field stands for: its mapping when that is
      non-empty, the field itself otherwise. */
  function FieldsFor(env: Env, field: Str): (fs: seq<Str>)
    ensures |fs| >= 1
    ensures field in env.fieldmappings && |env.fieldmappings[field]| > 0 ==> fs == env.fieldmappings[field]
    ensures !(field in env.fieldmappings && |env.fieldmappings[field]| > 0) ==> fs == [field]
  {
    if field in env.fieldmappings && |env.fieldmappings[field]| > 0 then env.fieldmappings[field] else [field]
  }

  /** The body of the loop of `evaluateSearch` for one field matcher. */
  function MatcherFilter(env: Env, fm: FieldMatcher, d: Draws, pos: nat): Outcome<(Str, nat)>
  {
    var (mods, all) := SplitAll(fm.modifiers);
    var comp := ComparatorFor(env, mods);
    var vals :- GetMatcherValues(env, fm.values);
    MatcherMatchesValues(comp, vals, FieldsFor(env, fm.field), all, env, d, pos)
  }

  /** The nested loops of `evaluateSearch` from field matcher `j` of event
      matcher `i` on. */
  function SearchLoop(env: Env, ems: seq<seq<FieldMatcher>>, i: nat, j: nat, d: Draws, pos: nat,
                      filters: seq<Str>): Outcome<(seq<Str>, nat)>
    requires i <= |ems| && (i < |ems| ==> j <= |ems[i]|)
    decreases |ems| - i, if i < |ems| then |ems[i]| - j else 0
  {
    if i == |ems| then Ok((filters, pos))
    else if j == |ems[i]| then SearchLoop(env, ems, i + 1, 0, d, pos, filters)
    else
      var fp :- MatcherFilter(env, ems[i][j], d, pos);
      SearchLoop(env, ems, i, j + 1, d, fp.1, filters + [fp.0])
  }

  /** `evaluateSearch`. */
  function EvaluateSearch(env: Env, search: Search, d: Draws, pos: nat): (r: Outcome<(seq<Str>, nat)>)
    ensures |search.keywords| > 0 ==> r == Fail(KeywordsUnsupported)
    ensures |search.keywords| == 0 && |search.eventMatchers| == 0 ==> r == Ok(([], pos))
  {
    if |search.keywords| > 0 then Fail(KeywordsUnsupported)
    else if |search.eventMatchers| == 0 then Ok(([], pos))
    else SearchLoop(env, search.eventMatchers, 0, 0, d, pos, [])
  }

  /** The field matchers of all event matchers, in order. */
  function Flatten(ems: seq<seq<FieldMatcher>>): seq<FieldMatcher>
  {
    if |ems| == 0 then [] else ems[0] + Flatten(ems[1..])
  }

  /** Reference: one filter per field matcher, in order. */
  function FiltersOf(env: Env, fms: seq<FieldMatcher>, d: Draws, pos: nat): (r: Outcome<(seq<Str>, nat)>)
    ensures r.Ok? ==> |r.value.0| == |fms|
  {
    if |fms| == 0 then Ok(([], pos))
    else
      var fp :- MatcherFilter(env, fms[0], d, pos);
      var rest :- FiltersOf(env, fms[1..], d, fp.1);
      Ok(([fp.0] + rest.0, rest.1))
  }

  /** The field matchers the nested loops have yet to visit. */
  function Pending(ems: seq<seq<FieldMatcher>>, i: nat, j: nat): seq<FieldMatcher>
    requires i <= |ems| && (i < |ems| ==> j <= |ems[i]|)
  {
    if i == |ems| then [] else ems[i][j..] + Flatten(ems[i + 1..])
  }

  lemma PendingStep(ems: seq<seq<FieldMatcher>>, i: nat, j: nat)
    requires i < |ems| && j <= |ems[i]|
    ensures j < |ems[i]| ==> Pending(ems, i, j) == [ems[i][j]] + Pending(ems, i, j + 1)
    ensures j == |ems[i]| ==> Pending(ems, i, j) == Pending(ems, i + 1, 0)
  {
    if j == |ems[i]| {
      PendingRowEnd(ems, i);
    } else {
      PendingNext(ems, i, j);
    }
  }

  lemma PendingNext(ems: seq<seq<FieldMatcher>>, i: nat, j: nat)
    requires i < |ems| && j < |ems[i]|
    ensures Pending(ems, i, j) == [ems[i][j]] + Pending(ems, i, j + 1)
  {
    var rest := Flatten(ems[i + 1..]);
    assert ems[i][j..] == [ems[i][j]] + ems[i][j + 1..];
    assert Pending(ems, i, j) == ems[i][j..] + rest;
    assert Pending(ems, i, j + 1) == ems[i][j + 1..] + rest;
  }

  lemma PendingRowEnd(ems: seq<seq<FieldMatcher>>, i: nat)
    requires i < |ems|
    ensures Pending(ems, i, |ems[i]|) == Pending(ems, i + 1, 0)
  {
    assert ems[i][|ems[i]|..] == [];
    assert Pending(ems, i, |ems[i]|) == [] + Flatten(ems[i + 1..]);
    if i + 1 < |ems| {
      var tail := ems[i + 1..];
      assert tail[0] == ems[i + 1] && tail[1..] == ems[i + 2..];
      assert Flatten(tail) == ems[i + 1] + Flatten(ems[i + 2..]);
      assert ems[i + 1][0..] == ems[i + 1];
    } else {
      assert ems[i + 1..] == [];
    }
  }

  lemma {:induction false} SearchLoopFlat(env: Env, ems: seq<seq<FieldMatcher>>, i: nat, j: nat, d: Draws, pos: nat,
                                          filters: seq<Str>)
    requires i <= |ems| && (i < |ems| ==> j <= |ems[i]|)
    ensures var r := SearchLoop(env, ems, i, j, d, pos, filters);
      var f := FiltersOf(env, Pending(ems, i, j), d, pos);
      (r.Ok? <==> f.Ok?) && (!f.Ok? ==> r == f) && (f.Ok? ==> r.value == (filters + f.value.0, f.value.1))
    decreases |ems| - i, if i < |ems| then |ems[i]| - j else 0
  {
    if i == |ems| {
      assert filters + [] == filters;
    } else if j == |ems[i]| {
      PendingStep(ems, i, j);
      SearchLoopFlat(env, ems, i + 1, 0, d, pos, filters);
    } else {
      PendingStep(ems, i, j);
      var rest := Pending(ems, i, j + 1);
      assert ([ems[i][j]] + rest)[0] == ems[i][j] && ([ems[i][j]] + rest)[1..] == rest;
      var m := MatcherFilter(env, ems[i][j], d, pos);
      if m.Ok? {
        SearchLoopFlat(env, ems, i, j + 1, d, m.value.1, filters + [m.value.0]);
        FlatCons(env, ems[i][j], rest, d, pos, filters, SearchLoop(env, ems, i, j + 1, d, m.value.1, filters + [m.value.0]));
      }
    }
  }

  /** One field matcher in front: what the loop returns after it, compared with
      the reference on the remaining matchers, gives the comparison on all. */
  lemma FlatCons(env: Env, fm: FieldMatcher, rest: seq<FieldMatcher>, d: Draws, pos: nat, filters: seq<Str>,
                 r: Outcome<(seq<Str>, nat)>)
    requires MatcherFilter(env, fm, d, pos).Ok?
    requires var m := MatcherFilter(env, fm, d, pos).value;
      var f := FiltersOf(env, rest, d, m.1);
      (r.Ok? <==> f.Ok?) && (!f.Ok? ==> r == f) && (f.Ok? ==> r.value == (filters + [m.0] + f.value.0, f.value.1))
    ensures var f := FiltersOf(env, [fm] + rest, d, pos);
      (r.Ok? <==> f.Ok?) && (!f.Ok? ==> r == f) && (f.Ok? ==> r.value == (filters + f.value.0, f.value.1))
  {
    var m := MatcherFilter(env, fm, d, pos).value;
    var all := [fm] + rest;
    assert all[0] == fm && all[1..] == rest;
    var f := FiltersOf(env, rest, d, m.1);
    if f.Ok? {
      assert filters + [m.0] + f.value.0 == filters + ([m.0] + f.value.0);
    }
  }

  /** `evaluateSearch` visits the field matchers of all event matchers in
      order and returns one filter for each; keywords are an error. */
  lemma EvaluateSearchIsFlat(env: Env, search: Search, d: Draws, pos: nat)
    requires |search.keywords| == 0
    ensures var r := EvaluateSearch(env, search, d, pos);
      var f := FiltersOf(env, Flatten(search.eventMatchers), d, pos);
      r == f
    ensures var r := EvaluateSearch(env, search, d, pos);
      r.Ok? ==> |r.value.0| == |Flatten(search.eventMatchers)|
  {
    var ems := search.eventMatchers;
    if |ems| > 0 {
      SearchLoopFlat(env, ems, 0, 0, d, pos, []);
      assert ems[0][0..] == ems[0];
      assert Pending(ems, 0, 0) == Flatten(ems);
      var f := FiltersOf(env, Flatten(ems), d, pos);
      if f.Ok? {
        assert [] + f.value.0 == f.value.0;
      }
    }
  }

  /** A single string that is no placeholder is the only matcher value. */
  lemma OneValue(env: Env, v: Str)
    requires !IsPlaceholder(v)
    ensures GetMatcherValues(env, [VString(v)]) == Ok([v])
  {
    assert ExpandValue(env, VString(v)) == Ok([v]);
    assert [] + [v] == [v];
    assert ValuesFrom(env, [VString(v)], 1, [v]) == Ok([v]);
  }

  /** An unknown modifier is not reported: the nil comparator it leaves
      panics at the first value. */
  lemma UnknownModifierPanics(env: Env, field: Str, m: Str, v: Str, d: Draws, pos: nat)
    requires m !in Comparators && m !in ValueModifiers && m != Txt("all")
    requires !IsPlaceholder(v)
    ensures MatcherFilter(env, FieldMatcher(field, [m], [VString(v)]), d, pos) == Crash(NilComparatorCall)
  {
    TablesAgree();
    assert SplitAll([m]) == ([m], false);
    assert GetComparatorFrom(Comparators, [m]) == Fail(UnknownModifier(m));
    assert GetComparatorFrom(ComparatorsCaseSensitive, [m]) == Fail(UnknownModifier(m));
    assert ComparatorFor(env, [m]) == None;
    OneValue(env, v);
    NilComparatorPanics([v], FieldsFor(env, field), false, env, d, pos);
  }

  /** A field matcher without modifiers, values or mapping writes
      `<field> equal '<value>'`, both lower-cased, without drawing. */
  lemma SingleEqualFilter(env: Env, field: Str, v: Str, d: Draws, pos: nat)
    requires !IsPlaceholder(v)
    requires !(field in env.fieldmappings && |env.fieldmappings[field]| > 0)
    ensures MatcherFilter(env, FieldMatcher(field, [], [VString(v)]), d, pos) ==
      Ok((Render(Lower(field), Txt("equal"), Lower(v)), pos))
  {
    var p := Pipeline([], BaseComparator);
    var f := Render(Lower(field), Txt("equal"), Lower(v));
    assert ComparatorFor(env, []) == Some(p);
    OneValue(env, v);
    assert Apply(p, Text(field), Text(v), env.parsers, d, pos) == Ok((f, pos));
    assert Row(p, field, [v][1..], env, d, pos) == Ok(([], pos));
    assert [v][0] == v && [f] + [] == [f];
    assert Row(p, field, [v], env, d, pos) == Ok(([f], pos));
    assert Grid(p, [field][1..], [v], env, d, pos) == Ok(([], pos));
    assert [field][0] == field && [[f]] + [] == [[f]];
    assert Grid(p, [field], [v], env, d, pos) == Ok(([[f]], pos));
    MatcherAssembles(p, [v], [field], false, env, d, pos);
    assert FieldTexts([[f]], 1, false) == [f];
  }
}
