# Java-to-TypeScript type-name translation, verified in Dafny

The YApi-to-TypeScript browser extension turns the Java type names found in
API descriptions into TypeScript type expressions. It does this with one
constant table, `javaToJsTypeMap`, and one recursive function,
`convertJavaToJsType`, both in `typeMapping.js`. This project models both in
Dafny, as plain functions with lemmas about them, and proves what the
function returns in each of its branches, for every input.

- `js_string.dfy` (module `JsString`) models the three `String.prototype`
  operations the converter relies on: `toLowerCase` (on ASCII letters),
  `lastIndexOf` and `includes`.
- `type_mapping.dfy` (module `TypeMapping`) holds the rest:
  - `TableGet` is the table, one case per entry, in source order.
  - `LookupOr` is the expression `javaToJsTypeMap[key] || fallback`.
  - `StripPackage` removes the package prefix.
  - `MatchGeneric` and `MatchArray` stand in for the two regular expressions
    `/^([A-Za-z]+)<([^>]+)>$/` and `/^([^\[\]]+)\[\]$/`.
  - `ConvertTypeName` and `ConvertSimpleName` are the converter, before and
    after the package prefix is removed.
  - `ConvertJavaToJsType` is the entry point. A JavaScript argument that may
    be missing, not a string, or a string is modelled by `JavaTypeArg`.

The model follows the code as written, including four places where the
code defeats its own table or its own comments:

- **Mixed-case keys are never hit.** The comment at `typeMapping.js:85`
  announces case-insensitive matching, and the code keeps that: every lookup
  key is lower-cased first (`:86`, `:92`). But 26 of the 48 keys at `:10-68`
  contain capitals (`BigDecimal`, `Date`, `LocalDateTime`, `List`, `Map`,
  `Object`, …), so those entries can never be reached:
  - `BigDecimal` converts to `any`, not to the `number` its entry at `:22`
    gives; so do `java.math.BigDecimal` and `bigdecimal`.
  - The values `Date` and `Object`, and the bare `Array`, are never produced.
- **Maps become arrays.** The entry at `:41` maps `Map` to `Object`, but
  `map` is not a key, so `Map<K>` takes the generic branch's `Array` default
  at `:92` and becomes `Array<…>`.
- **Nested generics are not resolved.** The comment at `:95` announces that
  the generic argument is converted recursively, yet the pattern's `[^>]+` at
  `:89` rejects any argument containing `>`, and no key ends in `>`, so
  `List<List<string>>` converts to `any`. The package-prefix cut at `:81-83`
  also happens before pattern matching, at the last `.` anywhere:
  `java.util.List<com.x.User>` is cut to `User>`, which is `any` as well.
- **Multi-dimensional arrays are not resolved.** The array branch at
  `:104-108` converts `T[]` to an array of `T`'s conversion, but its group
  `[^\[\]]+` rejects an element that itself ends in `[]`, and the only
  bracketed keys are the nine `x[]` at `:59-67`. So `int[][]` and
  `String[][]` convert to `any`, not to an array of arrays. More generally,
  a name that contains `<` or `[` but fits neither pattern, such as
  `List<String` or `a[b]`, always falls through to `any` at `:112`.

## Model

| member | source | states |
|---|---|---|
| JsString.LowerChar | typeMapping.js:86 | lower-casing one character leaves no capital, keeps letters letters and non-letters non-letters, and changes exactly the capitals |
| JsString.ToLower | typeMapping.js:86 | `toLowerCase` keeps the length, leaves no capital, keeps each position a letter or a non-letter, and leaves every non-capital in place; `ToLowerIdempotent` and `ToLowerSlice` prove it idempotent and compatible with slicing |
| JsString.LastIndexOf | typeMapping.js:82 | `lastIndexOf` returns the last position holding the character, with none after it, and -1 exactly when the character is absent |
| TypeMapping.TableGet | typeMapping.js:10-68 | the 48 entries, in source order; what they hold is stated by `LookupOr`, `LowerKeyLookup`, `ArrayShapedKeys`, `PrimitiveArrayKeysConsistent`, `NoKeyEndsWithAngle`, `MixedCaseSpellings` and `MapSpellings` |
| TypeMapping.StripPackage | typeMapping.js:81-83 | the cut after the last `.`; its contract is `StripPackageSpec` and `StripPackageLower` |
| TypeMapping.MatchGeneric | typeMapping.js:89 | the pattern `/^([A-Za-z]+)<([^>]+)>$/`; `MatchGenericSound` and `MatchGenericComplete` prove it accepts exactly the strings of that shape, with those groups |
| TypeMapping.MatchArray | typeMapping.js:104 | the pattern `/^([^\[\]]+)\[\]$/`; `MatchArraySound` and `MatchArrayComplete` prove it accepts exactly the strings of that shape, with that group |
| TypeMapping.ConvertTypeName | typeMapping.js:75-113 | the conversion of a string argument; stated by `ConvertShape`, `ConvertStripsPackage`, `ConvertIgnoresPackagePrefix`, `ConvertCaseInsensitive` and `MixedCaseValuesUnreachable` |
| TypeMapping.ConvertSimpleName | typeMapping.js:88-112 | the three branches after the package cut; stated by `ConvertGenericSyntax`, `ConvertArraySuffix` and `ConvertPlainName` |
| TypeMapping.LookupOr | typeMapping.js:112 | a key that is in the table yields its entry (no entry is empty, so `\|\|` never replaces one) and an absent key yields the fallback |
| TypeMapping.StripPackageSpec | typeMapping.js:81-83 | the stripped name has no `.`, is a suffix of the input that the input's last `.` immediately precedes, and is the whole input when there is no `.` |
| TypeMapping.MatchGenericSound | typeMapping.js:89 | whatever the generic pattern accepts is `name<arg>` with a non-empty ASCII-letter `name` and a non-empty `arg` free of `>` |
| TypeMapping.MatchGenericComplete | typeMapping.js:89 | every string of that shape is accepted, split into exactly that `name` and `arg` |
| TypeMapping.MatchArraySound | typeMapping.js:104 | whatever the array pattern accepts is `elem[]` with a non-empty `elem` free of `[` and `]` |
| TypeMapping.MatchArrayComplete | typeMapping.js:104 | every string of that shape is accepted with exactly that `elem` |
| TypeMapping.NestedGenericNotMatched | typeMapping.js:89 | `name<arg>` with a `>` inside `arg` is rejected by the generic pattern, whatever `name` is |
| TypeMapping.MatchGenericLower | typeMapping.js:89 | lower-casing neither creates nor destroys a generic match and lower-cases both groups |
| TypeMapping.MatchArrayLower | typeMapping.js:104 | lower-casing neither creates nor destroys an array match and lower-cases the element name |
| TypeMapping.StripPackageLower | typeMapping.js:81-86 | stripping the package and lower-casing commute |
| TypeMapping.LowerKeyLookup | typeMapping.js:10-68 | a key that neither starts with a capital nor ends with `]` finds nothing, or a scalar type name other than `any` |
| TypeMapping.ConvertJavaToJsType | typeMapping.js:75-113 | a missing, non-string or empty argument gives `any`; every result is a TypeScript type expression: a scalar name, or `Array<…>` around one |
| TypeMapping.ConvertShape | typeMapping.js:75-113 | every result of the recursive conversion is `any`, a table value, or `Array<r>` around such a result |
| TypeMapping.MixedCaseValuesUnreachable | typeMapping.js:86-112 | no input converts to `Date`, `Object` or the bare `Array`, although the table holds those values |
| TypeMapping.ConvertStripsPackage | typeMapping.js:81-83 | converting after removing the package prefix gives the same result as converting the whole name |
| TypeMapping.ConvertIgnoresPackagePrefix | typeMapping.js:81-83 | any prefix followed by `.` in front of a `.`-free name leaves its conversion unchanged |
| TypeMapping.ConvertCaseInsensitive | typeMapping.js:86-112 | a name and its lower-cased spelling convert to the same result |
| TypeMapping.ConvertArraySuffix | typeMapping.js:104-108 | `T[]`, for non-empty `T` without `.`, `[` or `]`, converts to `Array<…>` around the conversion of `T` |
| TypeMapping.ConvertGenericSyntax | typeMapping.js:89-100 | `Name<Arg>` converts to `Array<…>` around `Arg`'s conversion when lower-cased `Name` is not a key; otherwise it converts to that key's entry, a scalar other than `any`, and drops `Arg` |
| TypeMapping.ConvertPlainName | typeMapping.js:111-112 | a name with no `.`, `<` or `[` converts to the entry of its lower-cased spelling, or `any` when there is none |
| TypeMapping.ConvertUnmatchedName | typeMapping.js:88-112 | a `.`-free name of neither generic nor array shape converts to the entry of its lower-cased spelling, or `any`; and always to `any` when it contains `<` or `[` |
| TypeMapping.MultiDimArrayIsAny | typeMapping.js:81-112 | `T[][]`, for every `T` with or without a package prefix, converts to `any` |
| TypeMapping.StripPackageAppend | typeMapping.js:81-83 | appending a `.`-free suffix before or after removing the package prefix gives the same name |
| TypeMapping.NoKeyHasAngle | typeMapping.js:10-68 | no key that can be looked up contains `<` |
| TypeMapping.BracketKeys | typeMapping.js:10-68 | the only keys that can be looked up and contain `[` are the nine primitive-array keys |
| TypeMapping.ArrayShapedKeys | typeMapping.js:59-67 | the only keys ending in `]` are the nine primitive-array keys |
| TypeMapping.PrimitiveArrayKeyElement | typeMapping.js:59-67 | each primitive-array key is accepted by the array pattern, with a primitive element name |
| TypeMapping.PrimitiveArrayKeysConsistent | typeMapping.js:12-67 | for each primitive name `x`, both `x` and `x[]` are keys, `x` is lower case, and `x[]` maps to `Array<…>` around the entry for `x` |
| TypeMapping.ConvertAgreesWithArrayKeys | typeMapping.js:59-67 | for every key of array shape, the array branch produces exactly that key's table entry |
| TypeMapping.NoKeyEndsWithAngle | typeMapping.js:10-68 | no key ends with `>` |
| TypeMapping.NestedGenericIsAny | typeMapping.js:89-112 | a `.`-free `name<arg>` whose `arg` contains `>` converts to `any` |
| TypeMapping.QualifiedGenericArgumentIsAny | typeMapping.js:81-112 | a name ending in `>` behind a package prefix converts to `any` when the part after the last `.` has no `<` or `[` (as in `java.util.List<com.x.User>`) |
| TypeMapping.MixedCaseSpellings | typeMapping.js:22-34 | `BigDecimal`, `Date` and `List` are keys made of letters, and their lower-cased spellings are not keys |
| TypeMapping.MixedCaseNamesAreAny | typeMapping.js:86-112 | `BigDecimal`, `Date` and `List` convert to `any` as written, lower-cased, and behind any package prefix |
| TypeMapping.MapSpellings | typeMapping.js:41 | `Map` is a key mapping to `Object`, but `map` is not a key |
| TypeMapping.MapGenericIsArray | typeMapping.js:89-100 | `Map<Arg>`, in any spelling of `map`, converts to `Array<…>` around `Arg`'s conversion |

## Left out

- `popup.js`, `background.js` and `content.js` are not part of this model. They are browser-extension plumbing: context menus, tabs, cookies, page storage, messages and the DOM.
- `utils.js` is not part of this model. It covers clipboard access, plus HTML escaping done by the browser's DOM.
- `request.js`, `api.js` and `getInterFace.js` are not part of this model. They are network wrappers around `fetch` and `URLSearchParams`.
- The declaration builders, response-shape classification and interface assembly are not part of this model. Their source is not among the files modelled.
- Inherited object properties are left out. A lookup in a JavaScript object literal also finds the prototype's properties. Because every lookup key is lower-cased, only `constructor` and `__proto__` reach one: the source returns the `Object` function or the prototype object for them, and for `Constructor<…>` the generic branch returns the `Object` function. The model's table holds only the literal's own 48 entries, so it converts `constructor` and `__proto__` to `any` and `Constructor<T>` to `Array<…>`.
- `toLowerCase` is modelled on ASCII only. Non-ASCII case mappings, including ones that change the length, are left out. The generic pattern only accepts ASCII letters for the collection name.
- The regular expressions are not modelled as a general engine. Only the two fixed patterns are encoded, as hand-written matchers proved to accept exactly the strings of their shape.
- Strings are sequences of Unicode scalar values, not UTF-16 code units. The separators `.`, `<`, `>`, `[` and `]` are single code units, so the cuts fall in the same places.
- Non-string JavaScript values are not modelled one by one. Every argument that is not a primitive string is one case, `NotAString`: numbers, objects, `String` wrapper objects and so on. The source gives `any` for all of them.
- MixedCaseNamesAreAny: stated only for `BigDecimal`, `Date` and `List`, not for each of the 26 keys containing a capital. The general consequence, that the values `Date`, `Object` and `Array` are never produced, is MixedCaseValuesUnreachable.
