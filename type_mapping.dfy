/**
 The Java-to-TypeScript type-name translator of the YApi-to-TypeScript
 converter: a constant table of Java type spellings and the recursive
 converter that strips a package prefix, recognises `Name<Arg>` and `T[]`,
 and otherwise looks the lower-cased name up in the table.
 */
module TypeMapping {
  import opened JsString

  datatype Option<T> = None | Some(value: T)

  /** What a JavaScript caller may pass as `javaType`. */
  datatype JavaTypeArg = Missing | NotAString | Text(s: string)

  /**
   `javaToJsTypeMap[key]`: the table, entry for entry and in source order;
   `Some(v)` when the table maps `key` to `v`, `None` when it has no such key.
   */
  function TableGet(key: string): Option<string> {
    match key
    // primitive types
    case "integer" => Some("number")
    case "int" => Some("number")
    case "long" => Some("number")
    case "double" => Some("number")
    case "float" => Some("number")
    case "boolean" => Some("boolean")
    case "string" => Some("string")
    case "char" => Some("string")
    case "byte" => Some("number")
    case "short" => Some("number")
    case "BigDecimal" => Some("number")
    case "BigInteger" => Some("number")
    // date and time types
    case "Date" => Some("Date")
    case "LocalDate" => Some("Date")
    case "LocalDateTime" => Some("Date")
    case "Timestamp" => Some("Date")
    case "Time" => Some("Date")
    case "Calendar" => Some("Date")
    // collection types
    case "List" => Some("Array")
    case "ArrayList" => Some("Array")
    case "LinkedList" => Some("Array")
    case "Set" => Some("Array")
    case "HashSet" => Some("Array")
    case "TreeSet" => Some("Array")
    case "Collection" => Some("Array")
    case "Map" => Some("Object")
    case "HashMap" => Some("Object")
    case "LinkedHashMap" => Some("Object")
    case "TreeMap" => Some("Object")
    case "ConcurrentHashMap" => Some("Object")
    // other common types
    case "Object" => Some("Object")
    case "StringBuilder" => Some("string")
    case "StringBuffer" => Some("string")
    case "Iterator" => Some("Array")
    case "Enumeration" => Some("Array")
    case "Optional" => Some("any")
    case "void" => Some("void")
    case "null" => Some("null")
    case "undefined" => Some("undefined")
    // arrays of primitive types
    case "int[]" => Some("Array<number>")
    case "long[]" => Some("Array<number>")
    case "double[]" => Some("Array<number>")
    case "float[]" => Some("Array<number>")
    case "boolean[]" => Some("Array<boolean>")
    case "string[]" => Some("Array<string>")
    case "char[]" => Some("Array<string>")
    case "byte[]" => Some("Array<number>")
    case "short[]" => Some("Array<number>")
    case _ => None
  }

  /** The names a lookup in the table can actually produce, plus the fallback `any`. */
  predicate IsScalarName(r: string) {
    r in {"any", "number", "boolean", "string", "void", "null", "undefined"}
  }

  /**
   The TypeScript type expressions the converter can produce: a scalar
   name, or `Array<e>` around another such expression.
   */
  ghost predicate IsTsType(r: string)
    decreases |r|
  {
    || IsScalarName(r)
    || (|r| >= 7 && r[..6] == "Array<" && r[|r| - 1] == '>' && IsTsType(r[6..|r| - 1]))
  }

  /**
   `javaToJsTypeMap[key] || fallback`: JavaScript's `||` also replaces a falsy
   (empty) entry, and an absent key reads as `undefined`.
   */
  function LookupOr(key: string, fallback: string): (r: string)
    ensures TableGet(key).Some? ==> r == TableGet(key).value
    ensures TableGet(key).None? ==> r == fallback
  {
    if TableGet(key).Some? && TableGet(key).value != "" then TableGet(key).value else fallback
  }

  /** The package-prefix removal: when the name contains a `.`, keep what follows the last one. */
  function StripPackage(s: string): string
  {
    if '.' in s then s[LastIndexOf(s, '.') + 1..] else s
  }

  /** The package-prefix removal keeps the longest `.`-free suffix. */
  lemma StripPackageSpec(s: string)
    ensures '.' !in StripPackage(s)
    ensures |StripPackage(s)| <= |s| && StripPackage(s) == s[|s| - |StripPackage(s)|..]
    ensures '.' in s ==> |StripPackage(s)| < |s| && s[|s| - |StripPackage(s)| - 1] == '.'
    ensures '.' !in s ==> StripPackage(s) == s
  {
  }

  /** `s` is `name<arg>` as the pattern /^([A-Za-z]+)<([^>]+)>$/ reads it, with groups `name` and `arg`. */
  ghost predicate IsGenericSyntax(s: string, name: string, arg: string) {
    && s == name + "<" + arg + ">"
    && |name| > 0 && (forall i :: 0 <= i < |name| ==> IsAsciiLetter(name[i]))
    && |arg| > 0 && '>' !in arg
  }

  /** `s` is `elem[]` as the pattern /^([^\[\]]+)\[\]$/ reads it, with group `elem`. */
  ghost predicate IsArraySyntax(s: string, elem: string) {
    s == elem + "[]" && |elem| > 0 && '[' !in elem && ']' !in elem
  }

  /** The length of the leading run of ASCII letters. */
  function LetterRun(s: string): (n: nat)
    ensures n <= |s|
    ensures forall i :: 0 <= i < n ==> IsAsciiLetter(s[i])
    ensures n < |s| ==> !IsAsciiLetter(s[n])
  {
    if s == [] || !IsAsciiLetter(s[0]) then 0 else 1 + LetterRun(s[1..])
  }

  /**
   The generic-collection match: the letters form the first group, the
   `<` must follow them at once, and the second group runs to the final `>`.
   */
  function MatchGeneric(s: string): Option<(string, string)>
  {
    var n := LetterRun(s);
    if 0 < n && n + 2 < |s| && s[n] == '<' && s[|s| - 1] == '>' && '>' !in s[n + 1..|s| - 1]
    then Some((s[..n], s[n + 1..|s| - 1]))
    else None
  }

  /** The array-suffix match: a non-empty bracket-free element name followed by `[]`. */
  function MatchArray(s: string): Option<string>
  {
    if |s| > 2 && s[|s| - 2..] == "[]" && '[' !in s[..|s| - 2] && ']' !in s[..|s| - 2]
    then Some(s[..|s| - 2])
    else None
  }

  /**
   `convertJavaToJsType` once the argument is known to be a string: the
   empty string is `any`, anything else loses its package prefix first.
   */
  function ConvertTypeName(javaType: string): string
    decreases |javaType|, 1
  {
    if javaType == "" then "any" else ConvertSimpleName(StripPackage(javaType))
  }

  /**
   The rest of `convertJavaToJsType`, on the name without its package:
   the generic pattern first, then the array pattern, then the table
   under the lower-cased name.
   */
  function ConvertSimpleName(simpleTypeName: string): string
    decreases |simpleTypeName|, 0
  {
    var typeKey := ToLower(simpleTypeName);
    match MatchGeneric(simpleTypeName)
    case Some((collectionType, itemType)) =>
      var jsCollectionType := LookupOr(ToLower(collectionType), "Array");
      if jsCollectionType == "Array" then "Array<" + ConvertTypeName(itemType) + ">"
      else jsCollectionType
    case None =>
      match MatchArray(simpleTypeName)
      case Some(itemType) => "Array<" + ConvertTypeName(itemType) + ">"
      case None => LookupOr(typeKey, "any")
  }

  /**
   `convertJavaToJsType`: a missing, non-string or empty argument yields
   `any` at once; every result is a well-formed TypeScript type expression.
   */
  function ConvertJavaToJsType(javaType: JavaTypeArg): (r: string)
    ensures !javaType.Text? || javaType.s == "" ==> r == "any"
    ensures IsTsType(r)
  {
    match javaType
    case Text(s) => ConvertShape(s); ConvertTypeName(s)
    case _ => "any"
  }

  // ---------------------------------------------------------------------
  // The two patterns: the matchers find exactly the strings of their shape.
  // ---------------------------------------------------------------------

  /** What the generic pattern matches is of generic shape, split into its two groups. */
  lemma MatchGenericSound(s: string)
    ensures MatchGeneric(s).Some? ==> IsGenericSyntax(s, MatchGeneric(s).value.0, MatchGeneric(s).value.1)
  {
    if MatchGeneric(s).Some? {
      var n := LetterRun(s);
      assert s == s[..n] + "<" + s[n + 1..|s| - 1] + ">";
    }
  }

  /** What the array pattern matches is of array shape, with its element name. */
  lemma MatchArraySound(s: string)
    ensures MatchArray(s).Some? ==> IsArraySyntax(s, MatchArray(s).value)
  {
    if MatchArray(s).Some? {
      assert s == s[..|s| - 2] + "[]";
    }
  }

  /** Every string of generic shape is matched, with its unique split. */
  lemma MatchGenericComplete(s: string, name: string, arg: string)
    requires IsGenericSyntax(s, name, arg)
    ensures MatchGeneric(s) == Some((name, arg))
  {
    var n := LetterRun(s);
    assert forall i :: 0 <= i < |name| ==> s[i] == name[i];
    assert s[|name|] == '<';
    assert n == |name|;
    assert s[..n] == name;
    assert s[|s| - 1] == '>';
    assert s[n + 1..|s| - 1] == arg;
  }

  /** Every string of array shape is matched, with its unique element name. */
  lemma MatchArrayComplete(s: string, elem: string)
    requires IsArraySyntax(s, elem)
    ensures MatchArray(s) == Some(elem)
  {
    assert s[..|s| - 2] == elem;
    assert s[|s| - 2..] == "[]";
  }

  /** A `>` inside the argument (a nested generic) defeats the generic pattern, whatever the name. */
  lemma NestedGenericNotMatched(name: string, arg: string)
    requires '>' in arg
    ensures MatchGeneric(name + "<" + arg + ">").None?
  {
    var s := name + "<" + arg + ">";
    var k :| 0 <= k < |arg| && arg[k] == '>';
    assert s[|name|] == '<' && s[|name| + 1 + k] == '>';
    // the letter run stops at or before the `<` after `name`, so the second
    // group would have to contain the `>` of `arg`
    var n := LetterRun(s);
    assert n <= |name|;
    assert n + 2 < |s| ==> s[n + 1..|s| - 1][|name| - n + k] == '>';
  }

  /** Lower-casing keeps the leading run of letters exactly as long. */
  lemma {:induction false} LetterRunLower(s: string)
    ensures LetterRun(ToLower(s)) == LetterRun(s)
    decreases |s|
  {
    if s != [] && IsAsciiLetter(s[0]) {
      ToLowerSlice(s, 1, |s|);
      LetterRunLower(s[1..]);
    }
  }

  /** Lower-casing preserves the generic shape and lower-cases both groups. */
  lemma MatchGenericLower(s: string)
    ensures MatchGeneric(s).None? ==> MatchGeneric(ToLower(s)).None?
    ensures MatchGeneric(s).Some? ==>
      MatchGeneric(ToLower(s)) == Some((ToLower(MatchGeneric(s).value.0), ToLower(MatchGeneric(s).value.1)))
  {
    var ls := ToLower(s);
    var n := LetterRun(s);
    LetterRunLower(s);
    if 0 < n && n + 2 < |s| {
      // `<` and `>` are not letters: they sit where they sat before
      var last := |s| - 1;
      assert ls[n] == LowerChar(s[n]) && ls[last] == LowerChar(s[last]);
      assert ls[n] == '<' <==> s[n] == '<';
      assert ls[last] == '>' <==> s[last] == '>';
      var arg := s[n + 1..last];
      ToLowerSlice(s, n + 1, last);
      assert ls[n + 1..last] == ToLower(arg);
      ToLowerKeepsNonLetter(arg, '>');
      assert '>' in ls[n + 1..last] <==> '>' in arg;
      ToLowerSlice(s, 0, n);
      assert ls[..n] == ToLower(s[..n]);
    }
  }

  /** Lower-casing preserves the array shape and lower-cases the element name. */
  lemma MatchArrayLower(s: string)
    ensures MatchArray(s).None? ==> MatchArray(ToLower(s)).None?
    ensures MatchArray(s).Some? ==> MatchArray(ToLower(s)) == Some(ToLower(MatchArray(s).value))
  {
    if |s| > 2 {
      var n := |s| - 2;
      ToLowerSlice(s, n, |s|);
      assert s[n..] == "[]" <==> s[n] == '[' && s[n + 1] == ']';
      assert ToLower(s)[n..] == "[]" <==> ToLower(s)[n] == '[' && ToLower(s)[n + 1] == ']';
      ToLowerSlice(s, 0, n);
      ToLowerKeepsNonLetter(s[..n], '[');
      ToLowerKeepsNonLetter(s[..n], ']');
    }
  }

  /** Package stripping and lower-casing commute. */
  lemma StripPackageLower(s: string)
    ensures StripPackage(ToLower(s)) == ToLower(StripPackage(s))
  {
    ToLowerKeepsNonLetter(s, '.');
    if '.' in s {
      StripPackageLowerDot(s);
    }
  }

  /** `StripPackageLower` when there is a package prefix: the cut is at the same place. */
  lemma StripPackageLowerDot(s: string)
    requires '.' in s
    ensures StripPackage(ToLower(s)) == ToLower(StripPackage(s))
  {
    var i := LastIndexOf(s, '.');
    ToLowerKeepsNonLetter(s, '.');
    LastIndexOfLower(s, '.');
    ToLowerSlice(s, i + 1, |s|);
  }

  // ---------------------------------------------------------------------
  // What the table lookups can return.
  // ---------------------------------------------------------------------

  /**
   A key that neither starts with a capital nor ends with `]` only finds
   scalar names: every key that maps to `Date`, `Object`, `Array` or `any`
   starts with a capital, and the keys mapping to `Array<...>` end with `]`.
   */
  lemma LowerKeyLookup(key: string)
    requires |key| > 0 ==> !IsUpper(key[0]) && key[|key| - 1] != ']'
    ensures TableGet(key).Some? ==> IsScalarName(TableGet(key).value) && TableGet(key).value != "any"
  {
  }

  /** Wrapping a type expression in `Array<...>` gives a type expression. */
  lemma ArrayOfTsType(x: string)
    requires IsTsType(x)
    ensures IsTsType("Array<" + x + ">")
  {
    var r := "Array<" + x + ">";
    assert r[..6] == "Array<" && r[6..|r| - 1] == x;
  }

  /** The collection name of a generic type, lower-cased, finds a scalar name other than `any` if anything. */
  lemma CollectionLookupShape(c: string)
    requires |c| > 0 && forall i :: 0 <= i < |c| ==> IsAsciiLetter(c[i])
    ensures TableGet(ToLower(c)).Some? ==> IsScalarName(TableGet(ToLower(c)).value) && TableGet(ToLower(c)).value != "any"
  {
    assert IsAsciiLetter(ToLower(c)[|c| - 1]);
    LowerKeyLookup(ToLower(c));
  }

  /** The lookup of a name that is not of array shape gives a type expression. */
  lemma PlainLookupShape(simple: string)
    requires MatchArray(simple).None?
    ensures IsTsType(LookupOr(ToLower(simple), "any"))
  {
    var key := ToLower(simple);
    MatchArrayLower(simple);
    if |key| > 0 && key[|key| - 1] == ']' {
      if TableGet(key).Some? {
        ArrayKeysMatchArray(key);
      }
    } else {
      LowerKeyLookup(key);
    }
  }

  /**
   Every result is `any`, a scalar name from the table, or `Array<e>`
   around another result: each recursive call is on a strictly shorter
   argument and contributes exactly the inner expression.
   */
  lemma {:induction false} ConvertShape(s: string)
    ensures IsTsType(ConvertTypeName(s))
    decreases |s|, 1
  {
    if s != "" {
      SimpleNameShape(StripPackage(s));
    }
  }

  /** `ConvertShape` for the name without its package. */
  lemma {:induction false} SimpleNameShape(simple: string)
    ensures IsTsType(ConvertSimpleName(simple))
    decreases |simple|, 0
  {
    match MatchGeneric(simple)
    case Some((c, t)) =>
      MatchGenericSound(simple);
      CollectionLookupShape(c);
      if LookupOr(ToLower(c), "Array") == "Array" {
        ConvertShape(t);
        ArrayOfTsType(ConvertTypeName(t));
      }
    case None =>
      match MatchArray(simple)
      case Some(t) =>
        ConvertShape(t);
        ArrayOfTsType(ConvertTypeName(t));
      case None =>
        PlainLookupShape(simple);
  }

  /**
   The values stored only under mixed-case keys (`Date`, `Object`, the bare
   `Array`) are never produced: the lookup key is always lower-cased.
   */
  lemma MixedCaseValuesUnreachable(s: string)
    ensures ConvertTypeName(s) !in {"Date", "Object", "Array"}
  {
    ConvertShape(s);
  }

  // ---------------------------------------------------------------------
  // The promised properties of the converter.
  // ---------------------------------------------------------------------

  /** Converting is the same before and after the package prefix is removed. */
  lemma ConvertStripsPackage(s: string)
    ensures ConvertTypeName(StripPackage(s)) == ConvertTypeName(s)
  {
    var p := StripPackage(s);
    if s != "" {
      if p == "" {
        assert MatchGeneric(p).None? && MatchArray(p).None?;
        assert ToLower(p) == "";
        assert ConvertSimpleName(p) == LookupOr("", "any");
      } else {
        assert StripPackage(p) == p;
        assert ConvertTypeName(p) == ConvertSimpleName(p);
      }
    }
  }

  /** A package prefix in front of a `.`-free name changes nothing. */
  lemma ConvertIgnoresPackagePrefix(prefix: string, name: string)
    requires '.' !in name
    ensures ConvertTypeName(prefix + "." + name) == ConvertTypeName(name)
  {
    var s := prefix + "." + name;
    var r := StripPackage(s);
    assert s[|prefix|] == '.';
    assert forall k :: |prefix| < k < |s| ==> s[k] == name[k - |prefix| - 1];
    assert r == s[|prefix| + 1..] == name;
    ConvertStripsPackage(s);
  }

  /** Upper- and lower-case spellings convert alike. */
  lemma {:induction false} ConvertCaseInsensitive(s: string)
    ensures ConvertTypeName(ToLower(s)) == ConvertTypeName(s)
    decreases |s|, 1
  {
    if s != "" {
      StripPackageLower(s);
      SimpleNameCaseInsensitive(StripPackage(s));
    }
  }

  /** `ConvertCaseInsensitive` for the name without its package. */
  lemma {:induction false} SimpleNameCaseInsensitive(simple: string)
    ensures ConvertSimpleName(ToLower(simple)) == ConvertSimpleName(simple)
    decreases |simple|, 0
  {
    ToLowerIdempotent(simple);
    MatchGenericLower(simple);
    MatchArrayLower(simple);
    match MatchGeneric(simple)
    case Some((c, t)) =>
      ToLowerIdempotent(c);
      ConvertCaseInsensitive(t);
    case None =>
      match MatchArray(simple)
      case Some(t) =>
        ConvertCaseInsensitive(t);
      case None =>
  }

  /** `T[]` converts to `Array<...>` around the conversion of `T`. */
  lemma ConvertArraySuffix(elem: string)
    requires |elem| > 0 && '.' !in elem && '[' !in elem && ']' !in elem
    ensures ConvertTypeName(elem + "[]") == "Array<" + ConvertTypeName(elem) + ">"
  {
    var s := elem + "[]";
    assert '.' !in s by {
      assert forall k :: 0 <= k < |elem| ==> s[k] == elem[k];
    }
    MatchArrayComplete(s, elem);
  }

  /**
   `Name<Arg>` converts to `Array<...>` around the conversion of `Arg` when
   the lower-cased name is not in the table (no lower-case key maps to
   `Array`), and to the table's scalar name for it otherwise, dropping `Arg`.
   */
  lemma ConvertGenericSyntax(name: string, arg: string)
    requires |name| > 0 && forall i :: 0 <= i < |name| ==> IsAsciiLetter(name[i])
    requires |arg| > 0 && '>' !in arg && '.' !in arg
    ensures TableGet(ToLower(name)).None? ==>
      ConvertTypeName(name + "<" + arg + ">") == "Array<" + ConvertTypeName(arg) + ">"
    ensures TableGet(ToLower(name)).Some? ==>
      && ConvertTypeName(name + "<" + arg + ">") == TableGet(ToLower(name)).value
      && IsScalarName(TableGet(ToLower(name)).value) && TableGet(ToLower(name)).value != "any"
  {
    var s := name + "<" + arg + ">";
    assert '.' !in s by {
      assert forall k :: 0 <= k < |name| ==> s[k] == name[k];
      assert forall k :: |name| < k < |s| - 1 ==> s[k] == arg[k - |name| - 1];
    }
    MatchGenericComplete(s, name, arg);
    CollectionLookupShape(name);
  }

  /** A name with no `.`, `<` or `[` is looked up lower-cased, falling back to `any`. */
  lemma ConvertPlainName(s: string)
    requires s != "" && '.' !in s && '<' !in s && '[' !in s
    ensures TableGet(ToLower(s)).Some? ==> ConvertTypeName(s) == TableGet(ToLower(s)).value
    ensures TableGet(ToLower(s)).None? ==> ConvertTypeName(s) == "any"
  {
    assert MatchGeneric(s).None? by {
      assert LetterRun(s) < |s| ==> s[LetterRun(s)] != '<';
    }
    assert MatchArray(s).None? by {
      assert |s| > 2 ==> s[|s| - 2] != '[';
    }
  }

  /** The element names of the primitive-array keys `x[]`. */
  predicate IsPrimitiveElement(elem: string) {
    elem in {"int", "long", "double", "float", "boolean", "string", "char", "byte", "short"}
  }

  /** The only keys ending in `]` are the nine primitive-array keys. */
  lemma ArrayShapedKeys(key: string)
    requires TableGet(key).Some? && |key| > 0 && key[|key| - 1] == ']'
    ensures IsPrimitiveArrayKey(key)
  {
  }

  /** The primitive-array keys `x[]`, spelled out. */
  predicate IsPrimitiveArrayKey(key: string) {
    key in {"int[]", "long[]", "double[]", "float[]", "boolean[]", "string[]", "char[]", "byte[]", "short[]"}
  }

  /** The primitive element names are spelled in lower-case letters. */
  lemma PrimitiveElementLower(elem: string)
    requires IsPrimitiveElement(elem)
    ensures forall i :: 0 <= i < |elem| ==> IsLower(elem[i])
  {
  }

  /** Each primitive-array key is a primitive element name followed by `[]`. */
  lemma PrimitiveArrayKeySplit(key: string)
    requires IsPrimitiveArrayKey(key)
    ensures |key| > 2 && key[|key| - 2..] == "[]" && IsPrimitiveElement(key[..|key| - 2])
  {
    match key
    case "int[]" => assert key[..|key| - 2] == "int" && key[|key| - 2..] == "[]";
    case "long[]" => assert key[..|key| - 2] == "long" && key[|key| - 2..] == "[]";
    case "double[]" => assert key[..|key| - 2] == "double" && key[|key| - 2..] == "[]";
    case "float[]" => assert key[..|key| - 2] == "float" && key[|key| - 2..] == "[]";
    case "boolean[]" => assert key[..|key| - 2] == "boolean" && key[|key| - 2..] == "[]";
    case "string[]" => assert key[..|key| - 2] == "string" && key[|key| - 2..] == "[]";
    case "char[]" => assert key[..|key| - 2] == "char" && key[|key| - 2..] == "[]";
    case "byte[]" => assert key[..|key| - 2] == "byte" && key[|key| - 2..] == "[]";
    case "short[]" => assert key[..|key| - 2] == "short" && key[|key| - 2..] == "[]";
  }

  /** Each primitive-array key is matched by the array pattern, with a primitive element name. */
  lemma PrimitiveArrayKeyElement(key: string)
    requires IsPrimitiveArrayKey(key)
    ensures MatchArray(key).Some? && IsPrimitiveElement(MatchArray(key).value)
  {
    PrimitiveArrayKeySplit(key);
    var e := key[..|key| - 2];
    PrimitiveElementLower(e);
    assert '[' !in e && ']' !in e;
  }

  /** Every key ending in `]` is matched by the array pattern. */
  lemma ArrayKeysMatchArray(key: string)
    requires TableGet(key).Some? && |key| > 0 && key[|key| - 1] == ']'
    ensures MatchArray(key).Some?
  {
    ArrayShapedKeys(key);
    PrimitiveArrayKeyElement(key);
  }

  /**
   For each primitive element name `x`, both `x` and `x[]` are keys, and
   `x[]` maps to `Array<...>` around the entry for `x`; `x` is lower case.
   */
  lemma PrimitiveArrayKeysConsistent(elem: string)
    requires IsPrimitiveElement(elem)
    ensures forall i :: 0 <= i < |elem| ==> IsLower(elem[i])
    ensures TableGet(elem).Some?
    ensures TableGet(elem + "[]") == Some("Array<" + TableGet(elem).value + ">")
  {
    PrimitiveElementLower(elem);
    if elem in {"int", "long", "short"} {
      IntegralArrayEntries(elem);
    } else if elem in {"double", "float", "byte"} {
      OtherNumberArrayEntries(elem);
    } else {
      TextArrayEntries(elem);
    }
  }

  /*
   The nine entries are checked in three groups of three rather than in one
   lemma: each literal lookup in the 48-case table is costly for the solver,
   and small groups keep every proof well inside its resource limit.
   */

  /** `PrimitiveArrayKeysConsistent` for `int`, `long` and `short`. */
  lemma IntegralArrayEntries(elem: string)
    requires elem in {"int", "long", "short"}
    ensures TableGet(elem).Some?
    ensures TableGet(elem + "[]") == Some("Array<" + TableGet(elem).value + ">")
  {
    match elem
    case "int" =>
      assert elem + "[]" == "int[]";
      assert TableGet("int") == Some("number") && TableGet("int[]") == Some("Array<number>");
      assert "Array<" + "number" + ">" == "Array<number>";
    case "long" =>
      assert elem + "[]" == "long[]";
      assert TableGet("long") == Some("number") && TableGet("long[]") == Some("Array<number>");
      assert "Array<" + "number" + ">" == "Array<number>";
    case "short" =>
      assert elem + "[]" == "short[]";
      assert TableGet("short") == Some("number") && TableGet("short[]") == Some("Array<number>");
      assert "Array<" + "number" + ">" == "Array<number>";
  }

  /** `PrimitiveArrayKeysConsistent` for `double`, `float` and `byte`. */
  lemma OtherNumberArrayEntries(elem: string)
    requires elem in {"double", "float", "byte"}
    ensures TableGet(elem).Some?
    ensures TableGet(elem + "[]") == Some("Array<" + TableGet(elem).value + ">")
  {
    match elem
    case "double" =>
      assert elem + "[]" == "double[]";
      assert TableGet("double") == Some("number") && TableGet("double[]") == Some("Array<number>");
      assert "Array<" + "number" + ">" == "Array<number>";
    case "float" =>
      assert elem + "[]" == "float[]";
      assert TableGet("float") == Some("number") && TableGet("float[]") == Some("Array<number>");
      assert "Array<" + "number" + ">" == "Array<number>";
    case "byte" =>
      assert elem + "[]" == "byte[]";
      assert TableGet("byte") == Some("number") && TableGet("byte[]") == Some("Array<number>");
      assert "Array<" + "number" + ">" == "Array<number>";
  }

  /** `PrimitiveArrayKeysConsistent` for `boolean`, `string` and `char`. */
  lemma TextArrayEntries(elem: string)
    requires elem in {"boolean", "string", "char"}
    ensures TableGet(elem).Some?
    ensures TableGet(elem + "[]") == Some("Array<" + TableGet(elem).value + ">")
  {
    match elem
    case "boolean" =>
      assert elem + "[]" == "boolean[]";
      assert TableGet("boolean") == Some("boolean") && TableGet("boolean[]") == Some("Array<boolean>");
      assert "Array<" + "boolean" + ">" == "Array<boolean>";
    case "string" =>
      assert elem + "[]" == "string[]";
      assert TableGet("string") == Some("string") && TableGet("string[]") == Some("Array<string>");
      assert "Array<" + "string" + ">" == "Array<string>";
    case "char" =>
      assert elem + "[]" == "char[]";
      assert TableGet("char") == Some("string") && TableGet("char[]") == Some("Array<string>");
      assert "Array<" + "string" + ">" == "Array<string>";
  }

  /** The array-suffix branch yields exactly the table's entry for every primitive-array key. */
  lemma ConvertAgreesWithArrayKeys(key: string)
    requires TableGet(key).Some? && MatchArray(key).Some?
    ensures ConvertTypeName(key) == TableGet(key).value
  {
    var elem := MatchArray(key).value;
    MatchArraySound(key);
    assert key == elem + "[]";
    ArrayShapedKeys(key);
    PrimitiveArrayKeyElement(key);
    PrimitiveArrayKeysConsistent(elem);
    var v := TableGet(elem).value;
    assert TableGet(key) == Some("Array<" + v + ">");
    assert '.' !in elem && '<' !in elem && '[' !in elem && ']' !in elem;
    ToLowerOfLower(elem);
    ConvertPlainName(elem);
    assert ConvertTypeName(elem) == v;
    ConvertArraySuffix(elem);
  }

  // ---------------------------------------------------------------------
  // The behaviour as written on the names the quirks concern.
  // ---------------------------------------------------------------------

  /** No key ends with `>`. */
  lemma NoKeyEndsWithAngle(key: string)
    requires TableGet(key).Some?
    ensures key[|key| - 1] != '>'
  {
  }

  /**
   A nested generic such as `List<List<string>>` fits neither pattern and
   is not a key: it converts to `any`, not to an array of arrays.
   */
  lemma NestedGenericIsAny(name: string, arg: string)
    requires '>' in arg && '.' !in name && '.' !in arg
    ensures ConvertTypeName(name + "<" + arg + ">") == "any"
  {
    var s := name + "<" + arg + ">";
    assert '.' !in s by {
      assert forall k :: 0 <= k < |name| ==> s[k] == name[k];
      assert forall k :: |name| < k < |s| - 1 ==> s[k] == arg[k - |name| - 1];
    }
    assert StripPackage(s) == s;
    NestedGenericNotMatched(name, arg);
    assert MatchArray(s).None?;
    var key := ToLower(s);
    assert ConvertTypeName(s) == LookupOr(key, "any");
    assert key[|key| - 1] == '>';
    if TableGet(key).Some? {
      NoKeyEndsWithAngle(key);
    }
  }

  /**
   Package stripping cuts at the last `.` even inside a generic argument:
   `java.util.List<com.x.User>` is reduced to `User>`, which converts to `any`.
   */
  lemma QualifiedGenericArgumentIsAny(prefix: string, name: string)
    requires |name| > 0 && name[|name| - 1] == '>'
    requires '.' !in name && '<' !in name && '[' !in name
    ensures ConvertTypeName(prefix + "." + name) == "any"
  {
    ConvertIgnoresPackagePrefix(prefix, name);
    ConvertPlainName(name);
    var key := ToLower(name);
    assert key[|key| - 1] == '>';
    if TableGet(key).Some? {
      NoKeyEndsWithAngle(key);
    }
  }

  /**
   No key contains `<`. Keys starting with a capital are left aside: every
   lookup key is lower-cased, so they are never hit.
   */
  lemma NoKeyHasAngle(key: string)
    requires TableGet(key).Some? && !IsUpper(key[0])
    ensures '<' !in key
  {
  }

  /** The only keys containing `[` are the nine primitive-array keys. */
  lemma BracketKeys(key: string)
    requires TableGet(key).Some? && !IsUpper(key[0]) && '[' in key
    ensures IsPrimitiveArrayKey(key)
  {
  }

  /**
   A `.`-free name that fits neither pattern is looked up lower-cased,
   falling back to `any`; when it contains `<` or `[` (a malformed generic
   such as `List<String`, or a bracket inside the name such as `a[b]`) no
   key can match it, so it converts to `any`.
   */
  lemma ConvertUnmatchedName(s: string)
    requires s != "" && '.' !in s
    requires forall name, arg :: !IsGenericSyntax(s, name, arg)
    requires forall elem :: !IsArraySyntax(s, elem)
    ensures ConvertTypeName(s) == LookupOr(ToLower(s), "any")
    ensures '<' in s || '[' in s ==> ConvertTypeName(s) == "any"
  {
    MatchGenericSound(s);
    MatchArraySound(s);
    assert ConvertTypeName(s) == LookupOr(ToLower(s), "any");
    var key := ToLower(s);
    if TableGet(key).Some? && ('<' in s || '[' in s) {
      ToLowerKeepsNonLetter(s, '<');
      ToLowerKeepsNonLetter(s, '[');
      if '<' in s {
        NoKeyHasAngle(key);
      } else {
        BracketKeys(key);
        PrimitiveArrayKeyElement(key);
        MatchArrayLower(s);
      }
      assert false;
    }
  }

  /** Removing the package prefix commutes with appending a `.`-free suffix. */
  lemma StripPackageAppend(s: string, t: string)
    requires '.' !in t
    ensures StripPackage(s + t) == StripPackage(s) + t
  {
    var st := s + t;
    assert forall k :: |s| <= k < |st| ==> st[k] != '.';
    assert forall k :: 0 <= k < |s| ==> st[k] == s[k];
    if '.' in s {
      var i := LastIndexOf(s, '.');
      var j := LastIndexOf(st, '.');
      assert st[i] == '.';
      assert j == i;
      assert st[j + 1..] == s[i + 1..] + t;
    } else {
      assert '.' !in st;
    }
  }

  /**
   A multi-dimensional array such as `int[][]` fits neither pattern (the
   element `int[]` holds brackets) and is not a key: it converts to `any`,
   not to an array of arrays.
   */
  lemma MultiDimArrayIsAny(elem: string)
    ensures ConvertTypeName(elem + "[][]") == "any"
  {
    StripPackageAppend(elem, "[][]");
    var s := StripPackage(elem) + "[][]";
    var key := ToLower(s);
    assert MatchGeneric(s).None? by {
      assert s[|s| - 1] == ']';
    }
    assert MatchArray(s).None? by {
      assert s[..|s| - 2][|s| - 4] == '[';
    }
    assert ConvertTypeName(elem + "[][]") == LookupOr(key, "any");
    if TableGet(key).Some? {
      assert key[|key| - 1] == ']';
      ArrayKeysMatchArray(key);
      MatchArrayLower(s);
      assert false;
    }
  }

  /** `BigDecimal`, `Date` and `List` are keys made of letters whose lower-cased spellings are not keys. */
  lemma MixedCaseSpellings(name: string)
    requires name in {"BigDecimal", "Date", "List"}
    ensures TableGet(name).Some? && TableGet(ToLower(name)).None?
    ensures forall i :: 0 <= i < |name| ==> IsAsciiLetter(name[i])
  {
    match name
    case "BigDecimal" => assert ToLower(name) == "bigdecimal";
    case "Date" => assert ToLower(name) == "date";
    case "List" => assert ToLower(name) == "list";
  }

  /**
   The lookup only ever uses lower-cased spellings, so the keys `BigDecimal`,
   `Date` and `List` are never hit: each converts to `any`, in any case and
   behind any package prefix.
   */
  lemma MixedCaseNamesAreAny(prefix: string, name: string)
    requires name in {"BigDecimal", "Date", "List"}
    ensures ConvertTypeName(name) == "any"
    ensures ConvertTypeName(ToLower(name)) == "any"
    ensures ConvertTypeName(prefix + "." + name) == "any"
  {
    MixedCaseSpellings(name);
    ConvertPlainName(name);
    ConvertCaseInsensitive(name);
    ConvertIgnoresPackagePrefix(prefix, name);
  }

  /** `Map` is a key, but its lower-cased spelling `map` is not. */
  lemma MapSpellings()
    ensures TableGet("Map") == Some("Object") && TableGet("map").None?
  {
  }

  /**
   `Map<...>`, in any spelling, falls back to the array default and
   converts to `Array<...>` around its argument, not to `Object`.
   */
  lemma MapGenericIsArray(name: string, arg: string)
    requires ToLower(name) == "map"
    requires |arg| > 0 && '>' !in arg && '.' !in arg
    ensures ConvertTypeName(name + "<" + arg + ">") == "Array<" + ConvertTypeName(arg) + ">"
  {
    MapSpellings();
    assert forall i :: 0 <= i < |name| ==> IsAsciiLetter(ToLower(name)[i]);
    ConvertGenericSyntax(name, arg);
  }
}
