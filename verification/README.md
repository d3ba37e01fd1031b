# sevaluator: Sigma rules to synthetic queries, in Dafny

The model covers the rule evaluator of logen. It takes a parsed Sigma rule and
produces four things:

- one list of textual filters per named search;
- one list of tokens per condition;
- one query per condition, made by putting the search filters into the condition tokens;
- one sourcetype per condition, taken from the rule's logsource.

Each filter is written as `field verb 'value'`. The value is a synthetic value:
random alphanumeric padding around the rule's value for `contains`, `startswith`
and `endswith`, a string generated from the regular expression for `re`, an
address inside the block for `cidr`, and the value itself for the comparison
modifiers.

## Modules

| file | module | what it holds |
|---|---|---|
| common.dfy | Common | Byte strings (`Str = seq<Byte>`), `Outcome` (Go error versus runtime panic), the stream of random draws, `strings.Join`, ASCII `strings.ToLower`, decimal printing |
| encoding.dfy | Encoding | Standard base64, UTF-8 decoding of runes, UTF-16 and little-endian byte pairs (the `base64` and `wide` value modifiers) |
| regex_walk.dfy | RegexSynth | The walk that generates a string from a parsed regular expression, and the language of the supported node kinds |
| ipv4.dfy | Ipv4 | Addresses as 4 bytes, `inc`, `IPRange`, `GetNthIP`, the dotted-quad text and its parse |
| synthetic.dfy | Synthetic | `GenerateSyntheticValue`, `generateRandomString`, `generateRegexSyntheticData`, `generateCIDRMatch` |
| modifiers.dfy | Modifiers | The comparator and value-modifier tables, each comparator's `Alters`, `getComparator` |
| condition.dfy | Condition | `evaluateSearchExpression`: condition expressions to tokens |
| search.dfy | SearchEval | `getMatcherValues`, `matcherMatchesValues`, `evaluateSearch` |
| rule.dfy | Rule | `RuleEvaluator.Alters` |

## Modelling choices

Go's `rand.Intn(n)` becomes `d(pos) % n`. Here `d: nat -> nat` is an arbitrary
stream of draws and `pos` is a cursor. Every generator returns the cursor after
its last draw, so a property proved for every `d` holds whatever the seed.

`Outcome` tells apart three things: the errors the Go code returns (`Fail`), the
panics it would hit (`Crash`), and recursion or loops that never end (also
`Crash`). The panics are:

- calling the nil comparator that `getComparator` returns next to its error;
- `rand.Intn` with a bound that is not positive;
- the slice `ips[1:len(ips)-1]` on the one-address list of a `/32` block (`ips[1:0]`).

The loops that never end are:

- `IPRange` of a `/0` block;
- childless capture and no-match nodes, which the regex walk hands back to itself unchanged.

Go iterates maps in an unspecified order. That order is a parameter, `order`. It
lists every search name once. The search loop and every `them` and pattern form,
in every condition, use this one order. Every property below holds for every such
order. Go may pick a fresh order at each `range`; those runs are left out (see
below).

The libraries the generator calls are parameters, given as a `Parsers` value:

- `regexp/syntax.Parse`, which yields a tree of `Regex` nodes;
- `net.ParseCIDR`, restricted to IPv4 blocks;
- the `String()` text of a literal node.

The remaining external behaviour is also given as parameters:

- the glob matcher of `1 of pattern*`;
- the placeholder expander;
- `%v` for floating-point values.

Each loop in the Go code is modelled as written, by accumulation (`Walk`, `Each`,
`ValuesLoop`, `FieldsLoop`, `SearchLoop`, `SearchesFrom`, `ConditionList`). Each
one is proved equal to a reference definition built by composition (`Emit`,
`Row`/`Grid`, `FiltersOf`, `QueryRef`). Each reference definition is then
characterised in terms of joins, interleavings and parenthesis counts.

In these places the model follows the code as written:

- A search with keywords is an error even when it also has event matchers.
- In a query with more than one token, every search name is parenthesised. This holds even for a search with a single filter.
- After a separator, the `them` forms put their own glue before the first name. So, when the rule has a single search `b`, `a and 1 of them` yields `a and  or b`. With two or more searches the form is parenthesised, and the "(" suppresses that glue.
- The CIDR generator can return the network address, although the comment at sigma/sevaluator/modifiers/synthetic_data_generator.go:153 says the network and broadcast addresses are excluded. It never returns the broadcast address or the address just below it.

## Model

| member | source | states |
|---|---|---|
| Common.Lower | sigma/sevaluator/modifiers/modifiers.go:115 | lower-casing keeps the length, turns each upper-case ASCII letter into its lower-case letter (the byte plus 32), and keeps every other byte |
| Common.LowerIdempotent | sigma/sevaluator/modifiers/modifiers.go:115 | lower-casing twice is lower-casing once |
| Common.DecimalRoundTrip | sigma/sevaluator/evaluate_search.go:270-271 | the decimal text of a number parses back to that number |
| Encoding.Base64RoundTrip | sigma/sevaluator/modifiers/modifiers.go:229-231 | decoding the standard base64 text of any byte string gives the byte string back |
| Encoding.Base64Length | sigma/sevaluator/modifiers/modifiers.go:229-231 | the base64 text of n bytes is 4 * ceil(n/3) long (padded) |
| Encoding.Utf8RoundTrip | sigma/sevaluator/modifiers/modifiers.go:235-241 | the runes read back from the UTF-8 bytes of valid runes are those runes |
| Encoding.Utf16RoundTrip | sigma/sevaluator/modifiers/modifiers.go:235-241 | decoding the UTF-16 units of valid runes (surrogate pairs above U+FFFF) gives the runes back |
| Encoding.LittleEndianRoundTrip | sigma/sevaluator/modifiers/modifiers.go:237-240 | each 16-bit unit written low byte first is read back unchanged |
| Encoding.WideAscii | sigma/sevaluator/modifiers/modifiers.go:235-241 | the wide form of ASCII text is each byte followed by a zero byte |
| RegexSynth.Leaf | sigma/sevaluator/modifiers/synthetic_data_generator.go:96-120 | a childless node returns normally exactly when it is not a capture or no-match node (those never return, and no kind is a Go error); a character class writes one of its runes, a literal writes its text, every other kind writes nothing |
| RegexSynth.RepeatFrom | sigma/sevaluator/modifiers/synthetic_data_generator.go:75-87 | the repeat count lies between the node's minimum and maximum, and a maximum below the minimum (an unbounded repeat) makes `Intn` panic |
| RegexSynth.GenSound | sigma/sevaluator/modifiers/synthetic_data_generator.go:63-120 | on a tree of supported node kinds the walk returns, and the string it writes is in the expression's language |
| RegexSynth.RepeatCountBounds | sigma/sevaluator/modifiers/synthetic_data_generator.go:81 | a repeat that returns ran its child between min and max times |
| RegexSynth.ClassPicksEveryEndpoint | sigma/sevaluator/modifiers/synthetic_data_generator.go:103-109 | every rune of a character class is written for some draw |
| RegexSynth.AlternationWritesAll | sigma/sevaluator/modifiers/synthetic_data_generator.go:88-92 | `a\|b` writes every alternative ("ab"), which the expression does not match |
| RegexSynth.DotWritesNothing | sigma/sevaluator/modifiers/synthetic_data_generator.go:116-118 | `.` writes the empty string, which it does not match |
| RegexSynth.EscapedLiteralMisses | sigma/sevaluator/modifiers/synthetic_data_generator.go:110-112 | a literal whose `String()` is escaped (`a\.b` for the literal "a.b") is written escaped, which the literal does not match |
| RegexSynth.UnboundedRepeatPanics | sigma/sevaluator/modifiers/synthetic_data_generator.go:81 | `x{2,}` calls `Intn` with a negative bound |
| RegexSynth.NoMatchNeverReturns | sigma/sevaluator/modifiers/synthetic_data_generator.go:113-115 | a no-match node recurses on itself without end |
| Ipv4.IncValue | sigma/sevaluator/modifiers/synthetic_data_generator.go:166-173 | `inc` adds one to the address read as a big-endian number, wrapping at 2^32 |
| Ipv4.DottedQuadRoundTrip | sigma/sevaluator/modifiers/synthetic_data_generator.go:143 | the dotted-quad text of an address parses back to the address |
| Ipv4.ContainsRange | sigma/sevaluator/modifiers/synthetic_data_generator.go:150 | an address is in a block exactly when its value lies between the network address and the network address plus the block size |
| Ipv4.IPRangeContents | sigma/sevaluator/modifiers/synthetic_data_generator.go:147-154 | for prefixes 1 to 31 the listing holds the size-2 addresses above the network address, in order; /32 panics on the slice; /0 never leaves the loop |
| Ipv4.NthInBlock | sigma/sevaluator/modifiers/synthetic_data_generator.go:157-163 | the n-th address (n below the block size) is n above the network address and lies in the block |
| Synthetic.RandomString | sigma/sevaluator/modifiers/synthetic_data_generator.go:176-183 | n characters, each alphanumeric and chosen by one draw |
| Synthetic.RandomStringCoversAlnum | sigma/sevaluator/modifiers/synthetic_data_generator.go:176-183 | every alphanumeric string of length n can come out |
| Synthetic.GenerateRegex | sigma/sevaluator/modifiers/synthetic_data_generator.go:50-61 | a pattern that does not parse yields the empty string; the walk never returns an error |
| Synthetic.GenerateRegexMatches | sigma/sevaluator/modifiers/synthetic_data_generator.go:50-61 | a pattern whose parse is a supported tree yields a string the pattern matches |
| Synthetic.CidrMatchInBlock | sigma/sevaluator/modifiers/synthetic_data_generator.go:123-144 | for /1 to /30 the text parses to an address in the block, below the broadcast address minus one |
| Synthetic.CidrMatchCanBeNetwork | sigma/sevaluator/modifiers/synthetic_data_generator.go:138-141 | draw 0 returns the network address, which the count left out |
| Synthetic.CidrMatchEdgeBlocks | sigma/sevaluator/modifiers/synthetic_data_generator.go:132-138 | /31 calls `Intn(0)`, /32 fails in the slice, /0 never returns |
| Synthetic.GenerateSyntheticValue | sigma/sevaluator/modifiers/synthetic_data_generator.go:27-47 | `contains`: value at some point 0..10 inside 10 random alphanumerics; `startswith`/`endswith`: value before/after them; `re`/`cidr`: the generator's output; any other operation: the value unchanged, after 10 draws |
| Synthetic.ContainsInsertionPoint | sigma/sevaluator/modifiers/synthetic_data_generator.go:31-33 | the insertion point is the eleventh draw modulo 11 |
| Modifiers.Modify | sigma/sevaluator/modifiers/modifiers.go:227-242 | `base64` yields text that decodes back to the value; `wide` yields text whose byte pairs are the value's UTF-16 units |
| Modifiers.ApplyModifiersAppend | sigma/sevaluator/modifiers/modifiers.go:53-62 | the modifiers apply in the order written |
| Modifiers.Alters | sigma/sevaluator/modifiers/modifiers.go:107-225 | the base comparator draws nothing, is empty only for a nil field and the value "null", and otherwise writes `<field> equal '<value>'` with both sides lower-cased; every other comparator renders the lower-cased field, its verb and the quoted synthetic value, lower-cased by the case-insensitive ones |
| Modifiers.AltersIgnoresFieldCase | sigma/sevaluator/modifiers/modifiers.go:107-225 | no comparator's output depends on the case of a text field |
| Modifiers.BaseIgnoresCase | sigma/sevaluator/modifiers/modifiers.go:109-117 | the base comparator compares case-insensitively: a text field and value give the same filter as their lower-case forms |
| Modifiers.TablesAgree | sigma/sevaluator/modifiers/modifiers.go:78-105 | both comparator tables have the same names, no comparator name is a value-modifier name, and no table entry is the base comparator |
| Modifiers.TablesCorrespond | sigma/sevaluator/modifiers/modifiers.go:78-100 | each case-sensitive entry is the case-sensitive twin of the case-insensitive one |
| Modifiers.CaseInsensitiveLowersAll | sigma/sevaluator/modifiers/modifiers.go:119-171 | a case-insensitive comparator returns the lower-cased output of its case-sensitive twin |
| Modifiers.GetComparatorSpec | sigma/sevaluator/modifiers/modifiers.go:22-64 | never panics; succeeds exactly on value modifiers optionally followed by one comparator last; the pipeline applies the named modifiers in order and then the named comparator (the base one when none); an error names the first modifier that is rejected |
| Modifiers.ScanSpec | sigma/sevaluator/modifiers/modifiers.go:30-51 | the loop over the modifiers from any position keeps that grammar |
| Modifiers.ContainsQuotesValue | sigma/sevaluator/modifiers/modifiers.go:119-126 | the quoted part is 10 longer than the modified value and holds it (lower-cased when insensitive) at an index 0..10 |
| Modifiers.StartsWithQuotesValue | sigma/sevaluator/modifiers/modifiers.go:137-144 | the quoted part starts with the modified value |
| Modifiers.EndsWithQuotesValue | sigma/sevaluator/modifiers/modifiers.go:128-135 | the quoted part ends with the modified value |
| Modifiers.OrderedQuotesValue | sigma/sevaluator/modifiers/modifiers.go:191-225 | `gt`, `gte`, `lt` and `lte` quote the modified value itself, after 10 draws |
| Condition.MatchingOrder | sigma/sevaluator/evaluate_search.go:95-105 | the searches a pattern picks are exactly the names the glob accepts, as a subsequence in the visiting order; distinct search names give each match once |
| Condition.WalkEmit | sigma/sevaluator/evaluate_search.go:14-195 | the accumulating walk appends exactly the tokens of the compositional definition, given whether the last token invites glue |
| Condition.EachEmit | sigma/sevaluator/evaluate_search.go:18-55 | `and`/`or` put their separator between the children's tokens |
| Condition.ThemLoopGlued | sigma/sevaluator/evaluate_search.go:72-93 | `1 of them` / `all of them` glue every name that follows a token inviting glue |
| Condition.PatternJoins | sigma/sevaluator/evaluate_search.go:95-131 | with plain search names, `1 of p*` joins the matching names with " or " (`all of` with " and "), in parentheses only below the top level when more than one matches |
| Condition.TopLevelThemJoins | sigma/sevaluator/evaluate_search.go:72-93 | at the top level, the tokens of `1 of them` concatenate to the search names joined with " or " |
| Condition.ThemAfterSeparator | sigma/sevaluator/evaluate_search.go:26-30 | when `b` is the rule's only search, `a and 1 of them` produces the tokens `a`, " and ", " or ", `b` |
| Condition.NotThemGlues | sigma/sevaluator/evaluate_search.go:58-63 | when `b` is the rule's only search, `not 1 of them` produces " not ", " or ", `b` |
| Condition.Balanced | sigma/sevaluator/evaluate_search.go:14-195 | for search names that are not parentheses, the tokens hold as many "(" as ")": their weight (+1 per "(", -1 per ")") is zero |
| SearchEval.MatcherValuesAreExpansions | sigma/sevaluator/evaluate_search.go:258-296 | the values are each value's text, or its placeholder expansion, concatenated in order; the first error wins |
| SearchEval.PlainValues | sigma/sevaluator/evaluate_search.go:263-292 | scalar values that are not placeholders are kept one for one |
| SearchEval.NonScalarFails | sigma/sevaluator/evaluate_search.go:274-275 | a non-scalar value is an error |
| SearchEval.PlaceholderNeedsExpander | sigma/sevaluator/evaluate_search.go:279-282 | a placeholder without an expander is the error naming it |
| SearchEval.MatcherAssembles | sigma/sevaluator/evaluate_search.go:301-341 | the filter is each field's comparator outputs joined with " and "/" or " (parenthesised for several values), those joined with " or ", parenthesised for several fields; a comparator error propagates |
| SearchEval.ValuesLoopRow | sigma/sevaluator/evaluate_search.go:305-321 | the inner loop builds the values' outputs joined by the separator |
| SearchEval.FieldsLoopGrid | sigma/sevaluator/evaluate_search.go:303-333 | the outer loop builds the field texts joined by " or " |
| SearchEval.NilComparatorPanics | sigma/sevaluator/evaluate_search.go:307 | with a rejected modifier list, a value and a field, the nil comparator is called |
| SearchEval.NoValuesLeavesSeparators | sigma/sevaluator/evaluate_search.go:303-333 | with no values, the filter is only the " or " separators between fields |
| SearchEval.SplitAll | sigma/sevaluator/evaluate_search.go:217-222 | the flag is set exactly when the last modifier is `all`, and the kept modifiers followed by that `all` (when set) give back the list: nothing else is removed |
| SearchEval.EvaluateSearch | sigma/sevaluator/evaluate_search.go:198-208 | keywords are an error; no event matchers is no filters |
| SearchEval.EvaluateSearchIsFlat | sigma/sevaluator/evaluate_search.go:213-254 | the nested loops give one filter per field matcher of all event matchers, in order, stopping at the first error |
| SearchEval.UnknownModifierPanics | sigma/sevaluator/evaluate_search.go:224-240 | an unknown modifier does not stop the search: the nil comparator it leaves is called |
| SearchEval.SingleEqualFilter | sigma/sevaluator/evaluate_search.go:232-240 | `field: v` gives the filter `field equal 'v'`, lower-cased |
| Rule.SearchesFromSpec | sigma/sevaluator/evaluate.go:54-60 | the search loop gives every visited search its filters, leaves earlier entries alone, and reports a failure under the search's name |
| Rule.KeywordsStop | sigma/sevaluator/evaluate.go:54-60 | a search with keywords stops the loop before it finishes |
| Rule.QueryTokens | sigma/sevaluator/evaluate.go:70-86 | each token that names a search becomes that search's filters joined with " and ", parenthesised when the condition has several tokens; other tokens stay |
| Rule.QueryIsRef | sigma/sevaluator/evaluate.go:70-89 | the query is the concatenation of the substituted tokens |
| Rule.SingleSearchQuery | sigma/sevaluator/evaluate.go:74-83 | a condition naming one search queries its filters joined with " and ", with no parentheses |
| Rule.TwoSearchesOr | sigma/sevaluator/evaluate.go:64-89 | `a or b` queries `(filters of a) or (filters of b)` |
| Rule.SourceType | sigma/sevaluator/evaluate.go:92-96 | a sourcetype exists exactly when there is a product: the product, followed by a space and the service when there is one |
| Rule.AltersSearches | sigma/sevaluator/evaluate.go:54-60 | the result has one entry per search, holding an evaluation of that search |
| Rule.AltersConditions | sigma/sevaluator/evaluate.go:64-89 | one token list and one query per condition; the tokens are the top-level walk of the condition; the query substitutes the filters into them |
| Rule.AltersSourceTypes | sigma/sevaluator/evaluate.go:92-96 | every condition gets the same sourcetype when the rule names a product, and none otherwise |
| Rule.AltersErrors | sigma/sevaluator/evaluate.go:54-60 | an error names the search that failed; a search with keywords never lets the rule through |
| Rule.OneSearchRule | sigma/sevaluator/evaluate.go:45-100 | one search `field: v` and the condition naming it give one filter, one token, one query equal to the filter, and the sourcetype "product service" |

## Left out

- main.go (the command-line tool) and openai.go (a network client) are not part of this model.
- The `context.Context` arguments are left out. No modelled code reads them.
- `sigma.Config`, the index list and the index conditions of the evaluator are left out. `Alters` does not use them.
- Common.Lower: follows Go's ASCII path only. For text holding a byte of 0x80 or above, `strings.ToLower` goes through `strings.Map`, which maps non-ASCII capitals and replaces each byte that is not valid UTF-8 with U+FFFD (EF BF BD), changing the length. The model keeps such bytes unchanged. This matters after `wide`, which writes one byte 0x80-0xFF for each rune U+0080 to U+00FF, and for non-ASCII field names and values. Unicode tables are not modelled.
- `%v` of floating-point numbers is a parameter (`formatFloat`). Go's shortest-representation float printing is not modelled.
- `regexp/syntax.Parse`, `net.ParseCIDR`, the literal node's `String()` and the glob matcher are parameters. Their parsing and escaping rules are not modelled.
- IPv6 blocks are left out. `GetNthIP` and `IPRange` slice four bytes, and the CIDR parser is restricted to IPv4.
- The `fmt.Println` diagnostics are left out. They are output only.
- The aggregation part of a condition is not evaluated by `Alters` and is left out.
- The wrapping of a Go error message (`fmt.Errorf` text) is reduced to a structured error value that names its cause.
- Synthetic.GenerateRegexMatches: it is proved only for supported trees, whose literals `String()` writes as their own text. Go escapes metacharacters in a literal, so a literal such as "a.b" is written as `a\.b` and does not match (`RegexSynth.EscapedLiteralMisses`). Alternations (`RegexSynth.AlternationWritesAll`) and `.` (`RegexSynth.DotWritesNothing`) are shown not to produce matching text. Anchors are supported and taken to match the empty string, as the surrounding text they test is not modelled.
- Rule.SearchesFromSpec: it states that each visited entry is the result of some evaluation of its search, and leaves out which draw cursor it started at.
- Search-map iteration order: Go may pick a fresh order at every `range` over the searches (sigma/sevaluator/evaluate.go:54 and sigma/sevaluator/evaluate_search.go:78, 98, 139 and 159). The model uses one order for the search loop and for every `them` and pattern form in every condition. Runs where two ranges disagree, such as `1 of them and 1 of them` giving `(a or b) and (b or a)`, are not modelled.
- Rule.AltersSearches: it states that each entry is the result of some evaluation of the search, and leaves out which draw cursor it started at.
