# Template helper kernel, modelled in Dafny

This project models two pieces of a Go template-helper library. Both work
on run-time-typed values, which the model represents as the tagged
datatype `Values.Val`.

- **Containment and truthiness** (`general.go`, module `General`):
  - `Contains` is an all-of search for targets in a string, a slice or
    array, or the values of a map.
  - `IsTrue` is text/template's truth rule. `IsEmpty`, `YesNo`,
    `Default` and `Coalesce` are built on it.
  - The unit choice of `FileSizeFormat` (bytes, KB … PB).
- **Left-fold arithmetic** (`number.go`, module `Number`): `cal(op)`
  turns every argument into a number, parsing strings. It then folds the
  numbers from the left with `*`, `+`, `/`, `-` or `pow`. The first error
  aborts the fold. The name table maps `mul`, `add`, `sum`, `div`, `sub`
  and `pow` to operators.

Three helpers are defined in other files of the library, outside
general.go and number.go, and are modelled as follows.

- `indirectInterface` becomes `Values.IndirectInterface`. It strips every
  pointer and interface layer. A nil at any depth ends in the invalid
  value `Nil`. The test "pointer array" (general_test.go:296-299) calls
  for this: a pointer to a slice is searched as the slice.
- `eq` is a parameter `eq: (Val, Val) -> Cmp`. Its three outcomes are
  `Same`, `Differ` and `Incomparable`; the last is eq's error return.
  Statements about the tests assume only `EqAgreesOnScalars`: two strings,
  or two signed integers, compare by equality without error. No
  cross-kind rule is assumed.
- `basicKind` becomes `Number.BasicKind`. It classifies the argument as
  passed, with no indirection, because `cal` calls `reflect.ValueOf(v)`
  directly.

Foreign calls are parameters:
- `fmt.Sprintf("%v", …)` is `render: Val -> string`;
- `strconv.ParseFloat` is `parse: string -> Option<real>`.

The model follows the code as written. Four facts about the code are
easy to miss:
- an `eq` error ends the slice or map scan with "not found"; the scan
  does not go on to later elements (general.go:49-51, 60-62);
- a nil target is rejected as invalid before any element is looked at,
  even when the slice holds a nil (general.go:38-41);
- `cal` does not resolve pointers before classifying (number.go:39-40);
- an unsigned argument reaches `rv.Int()`, which panics on unsigned
  kinds (number.go:46-47). text/template turns a panic in a helper into
  an error, so the model reports the failure `IntOfUnsigned`.

In two places the code and its tests disagree, and the model states what
the code does:
- the test "contains val nil" (general_test.go:361-369) expects true for a
  nil target in a slice holding a nil; the code rejects the nil target
  first (`ContainsNilScenarios`);
- `YesNo` tests its FIRST parameter (general.go:84-90), while its doc
  comment (general.go:83) says the LAST value decides. A pipeline
  `{{. | yesno "OK" "NOK"}}` passes the data last, so the code tests "OK"
  and answers "NOK" for every value, where the tests "yesno: string ok",
  "number ok" and "bool ok" (general_test.go:139-168) expect "OK"
  (`YesNoPipelineAsWritten`). `YesNoAsDocumented` is the documented
  reading; `Default` is stated through it (see "## Findings").

Map iteration order is unspecified in Go. A `Map` lists its entries in
one iteration order, and every statement about maps is either
order-free (`ProbeMap`, `ProbeMapOutcomes`, `ProbeMapOrderFree`) or about
that one order.

## Model

| member | source | states |
|---|---|---|
| Values.IndirectInterface | general.go:34-41 | the result has no pointer or interface layer left; a concrete value resolves to itself; a typed nil resolves to the invalid value |
| Values.IndirectInterfaceIdempotent | general.go:34-41 | resolving twice gives the same as resolving once |
| Values.IndirectInterfaceSeesThroughLayers | general.go:34-41 | any stack of pointer and interface layers resolves to what the innermost value resolves to; depth does not matter |
| General.IsSubstringAt | general.go:43-45 | the substring test holds iff the target occurs at some index of the collection string |
| General.IsSubstring | general.go:45 | strings.Contains: the empty string occurs in every string, and a string occurs only in one at least as long |
| General.ElemOutcomes | general.go:47-48 | one eq outcome per element, in index order: the resolved target against the resolved element |
| General.ValueOutcomes | general.go:57-59 | one eq outcome per map entry, in iteration order: the raw value against the raw target; keys play no part |
| General.Scan | general.go:46-70 | the early-exit scan never reports an invalid value; only eq's outcomes decide it |
| General.ScanMeaning | general.go:46-70 | the scan finds the target iff some outcome is a match and every earlier one a mismatch; it misses iff all are mismatches; it fails iff an eq error comes before any match |
| General.ScanByMembership | general.go:56-66 | when eq never errs, the scan finds the target iff some outcome is a match, whatever the order |
| General.Probe | general.go:33-71 | the check fails with an invalid value iff the collection or the target resolves to nil; a collection that is not a string, slice, array or map holds nothing |
| General.ContainsOne | general.go:33-71 | the closure's loops (the indexed slice scan and the map-range scan, both stopping at the first match or eq error) give exactly the result of Probe |
| General.Contains | general.go:32-81 | the loop over the targets returns true iff every target is found (ContainsAll); false at the first target that is missing or whose check errs; true for no targets whatever the collection |
| General.ProbeString | general.go:43-45 | a string collection holds a target iff the target's %v text occurs in it at some index; an eq error cannot occur |
| General.ProbeSlice | general.go:46-55 | a slice holds a target iff eq matches some resolved element before any error; it misses iff every element differs; eq's first error before a match fails the check |
| General.ProbeSliceResolvesElements | general.go:48 | slice elements are resolved before comparison: resolving them beforehand changes nothing |
| General.ProbeMapIgnoresKeys | general.go:56-66 | only map values are compared: two maps with the same values in the same order give the same answer, whatever their keys |
| General.ProbeMap | general.go:56-66 | when eq never errs, a map holds a target iff eq matches the raw target against some raw value |
| General.ProbeMapOutcomes | general.go:56-66 | for every eq, errors included: a map misses a valid target iff every value differs from it; a hit needs some matching value; an eq error needs some value eq fails on; with an eq error and no matching value the check fails |
| General.ProbeMapOrderFree | general.go:57-58 | when eq never errs, visiting the same entries in any other order gives the same answer |
| General.ContainsStringScenarios | general_test.go:241-252 | "hellox" contains "x"; "hello" does not |
| General.ContainsSliceScenarios | general_test.go:253-300 | ["y","x"] contains "x" but not "z"; a pointer to [1,2] contains 1 |
| General.ContainsMapScenarios | general_test.go:265-276 | {0:0,1:1} contains 1 but not 2 |
| General.ContainsMapOneMissingScenario | general_test.go:277-282 | {0:0,1:1} does not contain all of 0, 1 and 2 |
| General.ContainsMapAllPresentScenario | general_test.go:283-288 | {0:0,1:1,2:2} contains all of 0, 1 and 2 |
| General.ContainsOtherKindScenario | general_test.go:289-294 | an integer collection holds nothing |
| General.ContainsNilScenarios | general.go:34-41 | a nil collection with a nil target is invalid; so is a nil target searched in a slice holding a nil |
| General.TemplateIsTrue | general.go:114 | the text/template rule: a kind with no truth value is never true |
| General.IsTrue | general.go:113-118 | true iff the value is not nil, "", 0, 0.0, false, an empty slice or map, a nil pointer or interface, or a kind with no truth value |
| General.IsEmpty | general.go:122-124 | true exactly for the values listed above as carrying no meaning |
| General.PointerTruthDoesNotDereference | general.go:113-118 | a non-nil pointer or interface is true even when its target is empty |
| General.YesNo | general.go:84-90 | the "yes" value when v is meaningful, the "no" value when it is empty |
| General.YesNoAsDocumented | general.go:83 | the doc comment's reading: the last value's truth picks the first or the second value; it is YesNo with the last argument moved to the front |
| General.YesNoPipelineAsWritten | general.go:84-90 | as written, YesNo("OK", "NOK", data) is "NOK" for every data, also "ok", 1 and true |
| General.YesNoPipelineAsDocumented | general_test.go:137-175 | with the documented reading all six yesno tests get their expected answer |
| General.Default | general.go:103-108 | Default(df, v) is YesNo(v, v, df), and it is meaningful iff v or df is |
| General.Coalesce | general.go:93-100 | the first meaningful argument, every earlier one being empty; nil when every argument is empty |
| General.UnitFor | general.go:147-170 | the chosen unit is not larger than the size (except bytes) and the size is below 1024 of it (except PB) |
| General.UnitForUnique | general.go:157-170 | no other unit meets those two bounds |
| General.SizeOf | general.go:135-145 | only integer, unsigned and float kinds have a size; an unsigned size is never negative |
| General.FileSizeFormat | general.go:132-173 | no result for a non-numeric argument; otherwise the scaled size times the unit is the size, the scaled size is below 1024 unless PB and at least 1 unless bytes |
| Number.AddAndSumAgree | number.go:24-33 | the table has exactly six names, and "add" and "sum" both fold with addition |
| Number.BasicKind | number.go:40-43 | each number, string or bool argument gets its own kind; every other argument is rejected |
| Number.Coerce | number.go:39-58 | an argument is a number iff it is a signed integer, a float, or a string that parses; integers and floats keep their value and a string becomes its parse; an unsigned integer fails with IntOfUnsigned, an unparsable string with ParseFailure of its text, a bool with NotNumber, any other kind with BadComparisonType |
| Number.Combine | number.go:63-74 | one operator step; combining with the operator's identity (0 for add and sub, 1 for mul, div and pow) leaves the accumulator unchanged |
| Number.CombineInverses | number.go:63-74 | sub and div undo add and mul; a zero factor gives 0; a zero exponent gives 1 |
| Number.LeftFold | number.go:59-74 | the first number is the accumulator: a single number folds to itself |
| Number.FoldOfIdentities | number.go:59-74 | when every later number is the operator's identity, the fold is the first number |
| Number.CoerceAll | number.go:38-58 | on success every argument's number is returned in order; on failure the error is that of some argument |
| Number.Calc | number.go:35-78 | 1.0 for no arguments, whatever the operator; a single argument is returned unchanged |
| Number.Cal | number.go:35-78 | the loop returns the left fold of the coerced numbers with no error, or (0, err) with the first argument's error |
| Number.CoerceAllErrSticky | number.go:40-55 | after a failing argument, more arguments do not change the failure |
| Number.CalStep | number.go:59-74 | one pass of the loop keeps its state: after i+1 arguments r is the left fold of their numbers, the first number becoming the accumulator and each later one combined into it |
| Number.CalDone | number.go:76 | after the last argument the loop's r is cal's result |
| Number.CalcFails | number.go:40-57 | the first argument that is not a number decides cal's error |
| Number.FirstErrorAborts | number.go:40-57 | the first argument that is not a number decides the fold's error, whatever follows it |
| Number.ErrorIgnoresLaterArgs | number.go:40-55 | once an argument fails, appending any arguments does not change the result and puts no requirement on them |
| Number.CalParseFailureBeforeZeroDivisor | number.go:50-55 | div 1 "x" 0 with an unparsable "x" fails with the parse error; the zero divisor is never reached |
| Number.AddIsSum | number.go:66-67 | add folds to the sum of its arguments |
| Number.MulIsProduct | number.go:64-65 | mul folds to the product of its arguments |
| Number.MulWithZero | number.go:64-65 | any zero factor makes mul give 0 |
| Number.SubIsFirstMinusSum | number.go:70-71 | sub gives the first argument minus the sum of the rest |
| Number.DivIsFirstOverProduct | number.go:68-69 | div gives the first argument over the product of the rest |
| Number.PowIsPowerOfProduct | number.go:72-73 | pow gives the first argument raised to the product of the later exponents |
| Number.CalMulScenarios | number_test.go:7-16 | mul 1 2 3 = 6 and mul 1 2 3 0 = 0 |
| Number.CalDivScenario | number_test.go:17-21 | div 1 2 2 = 0.25 |
| Number.CalDivByOnesScenario | number_test.go:22-26 | div 2 1 1 1 = 2 |
| Number.CalAddScenarios | number_test.go:27-36 | through the name table, add 1 2 3 0 = 6 and sum 1 2 3 -1 1 0 = 6 |
| Number.CalSubScenario | number_test.go:37-41 | sub 1 2 3 = -4 |
| Number.CalPowScenario | number_test.go:42-46 | pow 2 2 2.0 = 16 |

## Left out

- The `log.Errorf` call in `Contains` (general.go:75) is a logging side effect. Only the boolean result is modelled.
- `eq` is a parameter, not a definition. It is defined in another file of the library and not modelled here, so no statement depends on its cross-kind numeric rules.
- `%v` rendering is the parameter `render`. The `%.1f` formatting and the `".0"` stripping in `FileSizeFormat` (general.go:153-155) are not modelled. `FileSizeFormat` returns the scaled size and the unit instead of the text, and `None` where the helper returns "".
- FileSizeFormat: sizes are exact reals. The rounding of `float64(v.Int())` for very large integers is not modelled.
- Cal: requires a non-zero divisor for `div` and a natural-number exponent for `pow`, for the arguments the fold reaches (every earlier argument is a number); arguments after the first failing one are not constrained. Division by zero gives an IEEE infinity or NaN in Go, and `math.Pow` takes real exponents; neither is modelled.
- Calc: the same requirement as Cal. Numbers are exact reals, so IEEE rounding (number_test.go:48-51) is not modelled.
- Complex numbers, channels and functions are not in the value type. For truth, channels and functions follow the same nil / non-nil rule as pointers.
- `containsAny`, `join`, `repeat`, `eq_any` and flattening are exercised by tests but are defined in other files of the library, outside general.go and number.go, and are not modelled here.
- Coerce: `Str` stands for a value of type `string` exactly. A named string type (html/template's `template.HTML`, say) is classed as a string by `basicKind` but panics at the type assertion `v.(string)` (number.go:52); the model parses it instead of failing.
- Go strings are byte sequences and `strings.Contains` (general.go:45) compares bytes; `string` here is a sequence of Unicode characters, so strings that are not valid UTF-8 cannot be represented and substring search is by character.
- `UUID`, `env` (os.Getenv), `GeneralFuncMap` and the other registration tables are foreign calls or plain tables.
- time.go reads the clock and the zone database, and strings.go wraps Go's strings package and `fmt.Sprintf`. Neither is part of this model.

## Findings

| source | as written | input that shows it | evidently intended | confidence | as-written member | corrected member |
|---|---|---|---|---|---|---|
| general.go:83-90 | YesNo tests its first parameter, vt and vf follow | `{{. \| yesno "OK" "NOK"}}` with data "ok", 1 or true gives "NOK" | the last value decides, as the doc comment says and the tests expect | high; not executed | General.YesNoPipelineAsWritten | General.YesNoAsDocumented |
