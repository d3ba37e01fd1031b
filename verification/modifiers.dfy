/** The modifier pipeline of a field matcher: the modifier tokens of a Sigma
    field (`field|base64|contains`) are checked against the grammar
    `(ValueModifier)* Comparator?`, the value modifiers rewrite the expected
    value left to right, and the comparator renders one filter such as
    `commandline contains 'xYz<value>abc'`. */
module Modifiers {
  import opened Common
  import opened Encoding
  import opened Synthetic

  /** The dynamic values a comparator receives (`any` in the source). */
  datatype Any = Nil | Text(s: Str) | Bytes(b: seq<Byte>)

  /** `coerceString`: strings and byte slices give their bytes; nil prints as `<nil>`. */
  function CoerceString(v: Any): (s: Str)
    ensures v.Text? ==> s == v.s
    ensures v.Bytes? ==> s == v.b
    ensures v.Nil? ==> s == Txt("<nil>")
  {
    match v
    case Text(s) => s
    case Bytes(b) => b
    case Nil => Txt("<nil>")
  }

  // -------------------------------------------------------- value modifiers

  datatype ValueModifier = Base64Modifier | WideModifier

  /** `b64.Modify` and `wide.Modify`: both return a string. */
  function Modify(m: ValueModifier, v: Any): (r: Any)
    ensures r.Text?
    ensures m == Base64Modifier ==>
      Base64Decode(r.s) == Some(CoerceString(v)) && |r.s| == 4 * ((|CoerceString(v)| + 2) / 3)
    ensures m == WideModifier ==>
      |r.s| % 2 == 0 && UnitsOfLittleEndian(r.s) == Utf16(Runes(CoerceString(v)))
  {
    match m
    case Base64Modifier =>
      Base64RoundTrip(CoerceString(v));
      Base64Length(CoerceString(v));
      Text(Base64(CoerceString(v)))
    case WideModifier => Text(Wide(CoerceString(v)))
  }

  /** The value modifiers applied left to right. */
  function ApplyModifiers(ms: seq<ValueModifier>, v: Any): Any
  {
    if |ms| == 0 then v else ApplyModifiers(ms[1..], Modify(ms[0], v))
  }

  lemma {:induction false} ApplyModifiersAppend(ms: seq<ValueModifier>, m: ValueModifier, v: Any)
    ensures ApplyModifiers(ms + [m], v) == Modify(m, ApplyModifiers(ms, v))
  {
    if |ms| > 0 {
      assert (ms + [m])[1..] == ms[1..] + [m];
      ApplyModifiersAppend(ms[1..], m, Modify(ms[0], v));
    }
  }

  // ------------------------------------------------------------ comparators

  datatype Comparator =
    | BaseComparator
    | ContainsCI | EndsWithCI | StartsWithCI
    | ContainsCS | EndsWithCS | StartsWithCS
    | Re | Cidr | Gt | Gte | Lt | Lte

  /** The word the filter uses for a comparator, which is also the operation
      name given to the synthetic value generator. */
  function Verb(c: Comparator): Str
    requires c != BaseComparator
  {
    match c
    case ContainsCI => Contains_
    case ContainsCS => Contains_
    case EndsWithCI => EndsWith_
    case EndsWithCS => EndsWith_
    case StartsWithCI => StartsWith_
    case StartsWithCS => StartsWith_
    case Re => Re_
    case Cidr => Cidr_
    case Gt => Txt("gt")
    case Gte => Txt("gte")
    case Lt => Txt("lt")
    case Lte => Txt("lte")
  }

  /** Only the case-insensitive `contains`, `endswith` and `startswith`
      lower-case the generated value; every comparator lower-cases the field. */
  predicate LowersValue(c: Comparator) {
    c in {ContainsCI, EndsWithCI, StartsWithCI}
  }

  /** `<field> <verb> '<value>'`. */
  function Render(field: Str, verb: Str, value: Str): Str
  {
    field + [32] + verb + Txt(" '") + value + Txt("'")
  }

  /** The `Alters` methods. The base comparator writes `<field> equal
      '<value>'` with both sides lower-cased, or nothing for a nil field
      compared with the string "null"; every other comparator asks the
      generator for a value and writes it after its verb. */
  function Alters(c: Comparator, field: Any, value: Any, parsers: Parsers, d: Draws, pos: nat): (r: Outcome<(Str, nat)>)
    ensures r.Fail? ==> false
    ensures c == BaseComparator ==> r.Ok? && r.value.1 == pos
    ensures c == BaseComparator ==> (r.value.0 == [] <==> field == Nil && value == Text(Txt("null")))
    ensures c == BaseComparator && !(field == Nil && value == Text(Txt("null"))) ==>
      r.value.0 == Render(Lower(CoerceString(field)), Txt("equal"), Lower(CoerceString(value)))
    ensures c != BaseComparator ==>
      (var g := GenerateSyntheticValue(CoerceString(value), Verb(c), parsers, d, pos);
       if g.Ok? then
         r.Ok? && r.value.1 == g.value.1 &&
         r.value.0 == Render(Lower(CoerceString(field)), Verb(c), if LowersValue(c) then Lower(g.value.0) else g.value.0)
       else r == g)
  {
    if c == BaseComparator then
      if field == Nil && value == Text(Txt("null")) then Ok(([], pos))
      else Ok((Render(Lower(CoerceString(field)), Txt("equal"), Lower(CoerceString(value))), pos))
    else
      var g := GenerateSyntheticValue(CoerceString(value), Verb(c), parsers, d, pos);
      if g.Ok? then
        var shown := if LowersValue(c) then Lower(g.value.0) else g.value.0;
        Ok((Render(Lower(CoerceString(field)), Verb(c), shown), g.value.1))
      else g
  }

  // ----------------------------------------------------------------- tables

  type Table = map<Str, Comparator>

  /** `Comparators`: the case-insensitive table. */
  const Comparators: Table := map[
    Contains_ := ContainsCI, EndsWith_ := EndsWithCI, StartsWith_ := StartsWithCI,
    Re_ := Re, Cidr_ := Cidr, Txt("gt") := Gt, Txt("gte") := Gte, Txt("lt") := Lt, Txt("lte") := Lte]

  /** `ComparatorsCaseSensitive`: the same keys, with the case-sensitive
      `contains`, `endswith` and `startswith`. */
  const ComparatorsCaseSensitive: Table := map[
    Contains_ := ContainsCS, EndsWith_ := EndsWithCS, StartsWith_ := StartsWithCS,
    Re_ := Re, Cidr_ := Cidr, Txt("gt") := Gt, Txt("gte") := Gte, Txt("lt") := Lt, Txt("lte") := Lte]

  /** `ValueModifiers`. */
  const ValueModifiers: map<Str, ValueModifier> := map[Txt("base64") := Base64Modifier, Txt("wide") := WideModifier]

  /** The two comparator tables have one key set, no key of which names a value modifier. */
  lemma TablesAgree()
    ensures Comparators.Keys == ComparatorsCaseSensitive.Keys
    ensures Comparators.Keys !! ValueModifiers.Keys
    ensures forall k :: k in Comparators ==> Comparators[k] != BaseComparator && ComparatorsCaseSensitive[k] != BaseComparator
  {
    assert Txt("wide")[0] != Cidr_[0];
  }

  /** A table is one of the two above. */
  predicate IsTable(t: Table) {
    t == Comparators || t == ComparatorsCaseSensitive
  }

  /** The case-sensitive counterpart of a comparator. */
  function CaseSensitive(c: Comparator): Comparator
  {
    match c
    case ContainsCI => ContainsCS
    case EndsWithCI => EndsWithCS
    case StartsWithCI => StartsWithCS
    case _ => c
  }

  /** The case-sensitive table is the case-insensitive one with each entry
      replaced by its case-sensitive counterpart. */
  lemma TablesCorrespond(k: Str)
    requires k in Comparators
    ensures k in ComparatorsCaseSensitive && ComparatorsCaseSensitive[k] == CaseSensitive(Comparators[k])
  {
    OpNamesDistinct();
  }

  lemma LowerRender(f: Str, verb: Str, v: Str)
    requires forall i :: 0 <= i < |verb| ==> !IsUpper(verb[i])
    ensures Lower(Render(f, verb, v)) == Render(Lower(f), verb, Lower(v))
  {
    LowerOfLower(verb);
    LowerOfLower(Txt(" '"));
    LowerOfLower(Txt("'"));
    LowerOfLower([32]);
    LowerConcat(f + [32] + verb + Txt(" '") + v, Txt("'"));
    LowerConcat(f + [32] + verb + Txt(" '"), v);
    LowerConcat(f + [32] + verb, Txt(" '"));
    LowerConcat(f + [32], verb);
    LowerConcat(f, [32]);
  }

  lemma VerbLower(c: Comparator)
    requires c != BaseComparator
    ensures forall i :: 0 <= i < |Verb(c)| ==> !IsUpper(Verb(c)[i])
  {
  }

  /** A case-insensitive comparator renders exactly the lower-cased filter of
      its case-sensitive counterpart, for the same draws. */
  lemma CaseInsensitiveLowersAll(c: Comparator, field: Any, value: Any, parsers: Parsers, d: Draws, pos: nat)
    requires c != BaseComparator
    ensures var ci := Alters(c, field, value, parsers, d, pos);
      var cs := Alters(CaseSensitive(c), field, value, parsers, d, pos);
      (ci.Ok? <==> cs.Ok?) && (cs.Ok? && LowersValue(c) ==> ci.value == (Lower(cs.value.0), cs.value.1))
  {
    var g := GenerateSyntheticValue(CoerceString(value), Verb(c), parsers, d, pos);
    if g.Ok? && LowersValue(c) {
      VerbLower(c);
      LowerRender(Lower(CoerceString(field)), Verb(c), g.value.0);
      LowerIdempotent(CoerceString(field));
    }
  }

  /** Every comparator lower-cases the field, so its case never shows. */
  lemma AltersIgnoresFieldCase(c: Comparator, f: Str, value: Any, parsers: Parsers, d: Draws, pos: nat)
    ensures Alters(c, Text(Lower(f)), value, parsers, d, pos) == Alters(c, Text(f), value, parsers, d, pos)
  {
    LowerIdempotent(f);
  }

  /** The base comparator compares case-insensitively: a text field and a text
      value give the same filter as their lower-case forms. */
  lemma BaseIgnoresCase(f: Str, v: Str, parsers: Parsers, d: Draws, pos: nat)
    ensures Alters(BaseComparator, Text(Lower(f)), Text(Lower(v)), parsers, d, pos)
         == Alters(BaseComparator, Text(f), Text(v), parsers, d, pos)
  {
    LowerIdempotent(f);
    LowerIdempotent(v);
  }

  // -------------------------------------------------------- getComparator

  /** What a successful `getComparator` returns: the value modifiers to apply
      in order, then the comparator (the base comparator when none is named). */
  datatype Pipeline = Pipeline(modifiers: seq<ValueModifier>, comparator: Comparator)

  /** The loop of `getComparator` from token `i` on, with the value modifiers
      and the comparator collected so far. The cases are tried in the source's
      order: unknown token, comparator before the end, value modifier, comparator. */
  function Scan(t: Table, mods: seq<Str>, i: nat, vms: seq<ValueModifier>, comp: Comparator): Outcome<Pipeline>
    requires i <= |mods|
    decreases |mods| - i
  {
    if i == |mods| then Ok(Pipeline(vms, comp))
    else
      var m := mods[i];
      if m !in t && m !in ValueModifiers then Fail(UnknownModifier(m))
      else if i < |mods| - 1 && m in t then Fail(ComparatorNotLast(m))
      else if m in ValueModifiers then Scan(t, mods, i + 1, vms + [ValueModifiers[m]], comp)
      else Scan(t, mods, i + 1, vms, t[m])
  }

  /** `getComparator(comparators, modifiers...)`. */
  function GetComparatorFrom(t: Table, mods: seq<Str>): Outcome<Pipeline>
  {
    if |mods| == 0 then Ok(Pipeline([], BaseComparator))
    else Scan(t, mods, 0, [], BaseComparator)
  }

  /** `GetComparator` and `GetComparatorCaseSensitive`. */
  function GetComparator(mods: seq<Str>): Outcome<Pipeline>
  {
    GetComparatorFrom(Comparators, mods)
  }

  function GetComparatorCaseSensitive(mods: seq<Str>): Outcome<Pipeline>
  {
    GetComparatorFrom(ComparatorsCaseSensitive, mods)
  }

  /** The grammar `(ValueModifier)* Comparator?` over the tokens. */
  predicate InGrammar(t: Table, mods: seq<Str>) {
    (forall i :: 0 <= i < |mods| - 1 ==> mods[i] in ValueModifiers) &&
    (|mods| > 0 ==> mods[|mods| - 1] in ValueModifiers || mods[|mods| - 1] in t)
  }

  /** Token `j` is the first one the grammar rejects. */
  predicate FirstRejected(t: Table, mods: seq<Str>, j: int) {
    0 <= j < |mods| &&
    (forall k :: 0 <= k < j ==> mods[k] in ValueModifiers) &&
    mods[j] !in ValueModifiers && !(j == |mods| - 1 && mods[j] in t)
  }

  /** `e` names the first rejected token: as a misplaced comparator when the
      table knows it, as an unknown modifier otherwise. */
  ghost predicate ReportsFirstRejected(t: Table, mods: seq<Str>, e: Error) {
    exists j :: FirstRejected(t, mods, j) &&
      e == (if mods[j] in t then ComparatorNotLast(mods[j]) else UnknownModifier(mods[j]))
  }

  /** The value modifiers named among the tokens, in order. */
  function ModifiersNamed(mods: seq<Str>): seq<ValueModifier>
  {
    if |mods| == 0 then []
    else (if mods[0] in ValueModifiers then [ValueModifiers[mods[0]]] else []) + ModifiersNamed(mods[1..])
  }

  /** The comparator the tokens end in, or the base comparator. */
  function NamedComparator(t: Table, mods: seq<Str>): Comparator
  {
    if |mods| > 0 && mods[|mods| - 1] in t then t[mods[|mods| - 1]] else BaseComparator
  }

  lemma {:induction false} ModifiersNamedSnoc(mods: seq<Str>, m: Str)
    ensures ModifiersNamed(mods + [m]) ==
      ModifiersNamed(mods) + (if m in ValueModifiers then [ValueModifiers[m]] else [])
  {
    if |mods| > 0 {
      assert (mods + [m])[1..] == mods[1..] + [m];
      ModifiersNamedSnoc(mods[1..], m);
    } else {
      assert mods + [m] == [m];
    }
  }

  /** The loop invariant of `getComparator`: every token before `i` was a
      value modifier, collected in order, and no comparator was seen. */
  lemma {:induction false} ScanSpec(t: Table, mods: seq<Str>, i: nat)
    requires IsTable(t) && i <= |mods|
    requires forall k :: 0 <= k < i ==> mods[k] in ValueModifiers
    ensures var r := Scan(t, mods, i, ModifiersNamed(mods[..i]), BaseComparator);
      !r.Crash? &&
      (r.Ok? <==> InGrammar(t, mods)) &&
      (r.Ok? ==> r.value == Pipeline(ModifiersNamed(mods), NamedComparator(t, mods))) &&
      (r.Fail? ==> ReportsFirstRejected(t, mods, r.error))
    decreases |mods| - i
  {
    TablesAgree();
    var vms := ModifiersNamed(mods[..i]);
    if i == |mods| {
      assert mods[..i] == mods;
    } else {
      var m := mods[i];
      ModifiersNamedSnoc(mods[..i], m);
      assert mods[..i + 1] == mods[..i] + [m];
      if m !in t && m !in ValueModifiers {
        assert FirstRejected(t, mods, i);
      } else if i < |mods| - 1 && m in t {
        assert FirstRejected(t, mods, i);
      } else if m in ValueModifiers {
        ScanSpec(t, mods, i + 1);
      } else {
        assert i == |mods| - 1;
        assert mods[..i + 1] == mods;
        assert InGrammar(t, mods);
      }
    }
  }

  /** `getComparator` accepts exactly the tokens of the grammar, returns the
      named value modifiers in order and the named comparator, and otherwise
      reports the first token the grammar rejects. */
  lemma GetComparatorSpec(t: Table, mods: seq<Str>)
    requires IsTable(t)
    ensures var r := GetComparatorFrom(t, mods);
      !r.Crash? &&
      (r.Ok? <==> InGrammar(t, mods)) &&
      (r.Ok? ==> r.value == Pipeline(ModifiersNamed(mods), NamedComparator(t, mods))) &&
      (r.Fail? ==> ReportsFirstRejected(t, mods, r.error))
  {
    assert mods[..0] == [];
    ScanSpec(t, mods, 0);
  }

  /** The `ComparatorFunc` a pipeline stands for: the value modifiers, then the comparator. */
  function Apply(p: Pipeline, field: Any, value: Any, parsers: Parsers, d: Draws, pos: nat): Outcome<(Str, nat)>
  {
    Alters(p.comparator, field, ApplyModifiers(p.modifiers, value), parsers, d, pos)
  }

  /** The string a substring comparator quotes: the generated value,
      lower-cased by the case-insensitive comparators. */
  lemma QuotedGenerated(p: Pipeline, field: Any, value: Any, parsers: Parsers, d: Draws, pos: nat)
    requires p.comparator in {ContainsCI, ContainsCS, StartsWithCI, StartsWithCS, EndsWithCI, EndsWithCS}
    ensures var v := CoerceString(ApplyModifiers(p.modifiers, value));
      var g := GenerateSyntheticValue(v, Verb(p.comparator), parsers, d, pos);
      var r := Apply(p, field, value, parsers, d, pos);
      g.Ok? && r.Ok? &&
      r.value.0 == Render(Lower(CoerceString(field)), Verb(p.comparator),
        if LowersValue(p.comparator) then Lower(g.value.0) else g.value.0)
  {
  }

  /** `contains`: the quoted string is the modified value (lower-cased by the
      case-insensitive comparator) with ten characters spread around it. */
  lemma ContainsQuotesValue(p: Pipeline, field: Any, value: Any, parsers: Parsers, d: Draws, pos: nat)
    requires p.comparator in {ContainsCI, ContainsCS}
    ensures var r := Apply(p, field, value, parsers, d, pos);
      var v := CoerceString(ApplyModifiers(p.modifiers, value));
      var shown := if LowersValue(p.comparator) then Lower(v) else v;
      r.Ok? &&
      exists q, i :: r.value.0 == Render(Lower(CoerceString(field)), Contains_, q) &&
        |q| == |v| + 10 && 0 <= i <= 10 && OccursAt(q, shown, i)
  {
    var c := p.comparator;
    var v := CoerceString(ApplyModifiers(p.modifiers, value));
    assert Verb(c) == Contains_;
    QuotedGenerated(p, field, value, parsers, d, pos);
    var i := ContainsPlacesValue(v, parsers, d, pos);
    var g := GenerateSyntheticValue(v, Contains_, parsers, d, pos).value.0;
    OccursShown(g, v, i, LowersValue(c));
  }

  /** Where `contains` put the value. */
  lemma ContainsPlacesValue(v: Str, parsers: Parsers, d: Draws, pos: nat) returns (i: nat)
    ensures var g := GenerateSyntheticValue(v, Contains_, parsers, d, pos);
      g.Ok? && |g.value.0| == |v| + 10 && i <= 10 && OccursAt(g.value.0, v, i)
  {
    var g := GenerateSyntheticValue(v, Contains_, parsers, d, pos).value.0;
    i :| 0 <= i <= 10 && OccursAt(g, v, i);
  }

  /** An occurrence survives lower-casing both strings. */
  lemma OccursShown(g: Str, v: Str, i: nat, lower: bool)
    requires OccursAt(g, v, i)
    ensures OccursAt(if lower then Lower(g) else g, if lower then Lower(v) else v, i)
  {
    if lower {
      LowerSlice(g, i, i + |v|);
    }
  }

  /** `startswith`: the quoted string begins with the modified value. */
  lemma StartsWithQuotesValue(p: Pipeline, field: Any, value: Any, parsers: Parsers, d: Draws, pos: nat)
    requires p.comparator in {StartsWithCI, StartsWithCS}
    ensures var r := Apply(p, field, value, parsers, d, pos);
      var v := CoerceString(ApplyModifiers(p.modifiers, value));
      var shown := if LowersValue(p.comparator) then Lower(v) else v;
      r.Ok? &&
      exists q :: r.value.0 == Render(Lower(CoerceString(field)), StartsWith_, q) &&
        |q| == |v| + 10 && HasPrefix(q, shown)
  {
    var c := p.comparator;
    var v := CoerceString(ApplyModifiers(p.modifiers, value));
    var shown := if LowersValue(c) then Lower(v) else v;
    assert Verb(c) == StartsWith_;
    var g := GenerateSyntheticValue(v, StartsWith_, parsers, d, pos).value.0;
    QuotedGenerated(p, field, value, parsers, d, pos);
    var q := if LowersValue(c) then Lower(g) else g;
    if LowersValue(c) {
      LowerSlice(g, 0, |v|);
    }
    assert |q| == |v| + 10 && HasPrefix(q, shown);
    assert Apply(p, field, value, parsers, d, pos).value.0 == Render(Lower(CoerceString(field)), StartsWith_, q);
  }

  /** `endswith`: the quoted string ends with the modified value. */
  lemma EndsWithQuotesValue(p: Pipeline, field: Any, value: Any, parsers: Parsers, d: Draws, pos: nat)
    requires p.comparator in {EndsWithCI, EndsWithCS}
    ensures var r := Apply(p, field, value, parsers, d, pos);
      var v := CoerceString(ApplyModifiers(p.modifiers, value));
      var shown := if LowersValue(p.comparator) then Lower(v) else v;
      r.Ok? &&
      exists q :: r.value.0 == Render(Lower(CoerceString(field)), EndsWith_, q) &&
        |q| == |v| + 10 && HasSuffix(q, shown)
  {
    var c := p.comparator;
    var v := CoerceString(ApplyModifiers(p.modifiers, value));
    var shown := if LowersValue(c) then Lower(v) else v;
    assert Verb(c) == EndsWith_;
    var g := GenerateSyntheticValue(v, EndsWith_, parsers, d, pos).value.0;
    QuotedGenerated(p, field, value, parsers, d, pos);
    var q := if LowersValue(c) then Lower(g) else g;
    if LowersValue(c) {
      LowerSlice(g, |g| - |v|, |g|);
    }
    assert |q| == |v| + 10 && HasSuffix(q, shown);
    assert Apply(p, field, value, parsers, d, pos).value.0 == Render(Lower(CoerceString(field)), EndsWith_, q);
  }

  /** The ordered comparators quote the modified value unchanged, after the
      ten draws the generator always makes. */
  lemma OrderedQuotesValue(p: Pipeline, field: Any, value: Any, parsers: Parsers, d: Draws, pos: nat)
    requires p.comparator in {Gt, Gte, Lt, Lte}
    ensures Apply(p, field, value, parsers, d, pos) ==
      Ok((Render(Lower(CoerceString(field)), Verb(p.comparator), CoerceString(ApplyModifiers(p.modifiers, value))), pos + 10))
  {
    OpNamesDistinct();
    var verb := Verb(p.comparator);
    assert verb[0] == 103 || verb[0] == 108;
    assert verb !in {Contains_, StartsWith_, EndsWith_, Re_, Cidr_};
  }
}
