/** Fetching the arguments that a parsed format asks for, and what the formatter may then rely on. */
module FetchArgs {
  import opened Powers
  import opened Integers
  import opened ScaledValue
  import opened FormatSyntax
  import opened ParserSpec
  import opened ParserProperties
  import opened FormatParser

  /** An argument as it is passed: small integers have been promoted, a text may be a null pointer. */
  datatype Value =
    | Integer(n: int)
    | Floating(x: Number)
    | Text(text: Option<string>)
    | Wide(wide: Option<seq<nat>>)
    | Pointer(address: nat)

  predicate IsIntegerType(t: ArgType) {
    t in {TypeSChar, TypeUChar, TypeShort, TypeUShort, TypeInt, TypeUInt, TypeLongInt, TypeULongInt, TypeLongLongInt,
          TypeULongLongInt, TypeChar, TypeWideChar}
  }

  predicate IsCountType(t: ArgType) {
    t in {TypeCountSChar, TypeCountShort, TypeCountInt, TypeCountLongInt, TypeCountLongLongInt}
  }

  predicate IsFloatType(t: ArgType) {
    t == TypeDouble || t == TypeLongDouble
  }

  /** What the caller must pass for a type. */
  predicate Suits(t: ArgType, v: Value) {
    match v
    case Integer(_) => IsIntegerType(t)
    case Floating(_) => IsFloatType(t)
    case Text(_) => t == TypeString
    case Wide(_) => t == TypeWideString
    case Pointer(_) => t == TypePointer || IsCountType(t)
  }

  /** What is stored for a passed argument: char and short are cut to their width, a null text is replaced. */
  function Stored(t: ArgType, v: Value): Value {
    match v
    case Integer(n) =>
      (match t
       case TypeSChar => Integer(ToSigned(n, 0x100))
       case TypeUChar => Integer(n % 0x100)
       case TypeShort => Integer(ToSigned(n, 0x1_0000))
       case TypeUShort => Integer(n % 0x1_0000)
       case _ => v)
    case Text(None) => Text(Some("(NULL)"))
    case Wide(None) => Wide(Some(['(' as nat, 'N' as nat, 'U' as nat, 'L' as nat, 'L' as nat, ')' as nat]))
    case _ => v
  }

  /** v is what an integer type holds of n: a value in its range that differs by a multiple of its size. */
  ghost predicate Holds(low: int, high: int, n: int, v: Value) {
    v.Integer? && low <= v.n <= high && (n - v.n) % (high - low + 1) == 0
  }

  /** What the formatter finds for a passed argument. */
  ghost predicate IsFetched(t: ArgType, passed: Value, v: Value) {
    match passed
    case Integer(n) =>
      (match t
       case TypeSChar => Holds(-128, 127, n, v)
       case TypeUChar => Holds(0, 255, n, v)
       case TypeShort => Holds(-32768, 32767, n, v)
       case TypeUShort => Holds(0, 65535, n, v)
       case _ => v == passed)
    case Text(None) => v == Text(Some("(NULL)"))
    case Wide(None) => v == Wide(Some([40, 78, 85, 76, 76, 41]))
    case _ => v == passed
  }

  lemma StoredIsFetched(t: ArgType, passed: Value)
    ensures IsFetched(t, passed, Stored(t, passed))
  {
    if passed.Integer? {
      var n := passed.n;
      ToSignedIsCast(n, 0x80);
      ToSignedIsCast(n, 0x8000);
      MultipleRemainder(n / 0x100, 0x100);
      MultipleRemainder(n / 0x1_0000, 0x1_0000);
    }
  }

  lemma OneInRange(size: int, n: int, x: int, y: int)
    requires size > 0 && (n - x) % size == 0 && (n - y) % size == 0 && -size < x - y < size
    ensures x == y
  {
    var q := (n - y) / size - (n - x) / size;
    assert x - y == q * size;
    if q >= 1 { MulMono(1, q, size); }
    if q <= -1 { MulMono(q, -1, size); }
  }

  /** There is one such value. */
  lemma FetchedIsUnique(t: ArgType, passed: Value, v: Value, w: Value)
    requires IsFetched(t, passed, v) && IsFetched(t, passed, w)
    ensures v == w
  {
    if passed.Integer? && t in {TypeSChar, TypeUChar, TypeShort, TypeUShort} {
      OneInRange(if t in {TypeSChar, TypeUChar} then 0x100 else 0x1_0000, passed.n, v.n, w.n);
    }
  }

  lemma StoredTexts(t: ArgType, v: Value)
    requires Suits(t, v)
    ensures t == TypeString ==> v.Text? && Stored(t, v) == if v.text.None? then Text(Some("(NULL)")) else v
    ensures
      t == TypeWideString ==>
        && v.Wide?
        && Stored(t, v) ==
           if v.wide.None? then Wide(Some(['(' as nat, 'N' as nat, 'U' as nat, 'L' as nat, 'L' as nat, ')' as nat])) else v
    ensures Stored(t, v).Text? ==> Stored(t, v).text.Some?
  {
  }

  /** The first slot that no directive has given a type. */
  function Gap(types: seq<ArgType>): (n: nat)
    ensures n <= |types|
    ensures forall i :: 0 <= i < n ==> types[i] != TypeNone
    ensures n < |types| ==> types[n] == TypeNone
  {
    if types == [] || types[0] == TypeNone then 0 else 1 + Gap(types[1..])
  }

  /** PRINTF_FETCHARGS. Stops at a slot without a type. */
  method Fetch(args: seq<Value>, a: Arguments, values: array<Value>) returns (ok: bool)
    requires a.Valid() && values.Length >= a.count
    requires Gap(a.arg[..a.count]) <= |args|
    requires forall i :: 0 <= i < Gap(a.arg[..a.count]) ==> Suits(a.arg[i], args[i])
    modifies values
    ensures ok <==> TypeNone !in a.arg[..a.count]
    ensures ok ==> a.count <= |args| && forall i :: 0 <= i < a.count ==> values[i] == Stored(a.arg[i], args[i])
    ensures ok ==> forall i :: 0 <= i < a.count ==> IsFetched(a.arg[i], args[i], values[i])
    ensures ok ==> forall i :: 0 <= i < a.count && values[i].Text? ==> values[i].text.Some?
    ensures forall i :: Gap(a.arg[..a.count]) <= i < values.Length ==> values[i] == old(values[i])
  {
    hide IsFetched, Stored, Suits;
    ghost var types := a.arg[..a.count];
    var i := 0;
    while i < a.count
      invariant i <= Gap(types) && a.arg[..a.count] == types
      invariant forall j :: 0 <= j < i ==> values[j] == Stored(types[j], args[j])
      invariant forall j :: i <= j < values.Length ==> values[j] == old(values[j])
    {
      var t := a.arg[i];
      if t == TypeNone {
        assert types[i] == TypeNone;
        return false;
      }
      assert types[i] == t && i < Gap(types);
      StoredTexts(t, args[i]);
      if t == TypeString {
        values[i] := if args[i].text.None? then Text(Some("(NULL)")) else args[i];
      } else if t == TypeWideString {
        values[i] :=
          if args[i].wide.None? then Wide(Some(['(' as nat, 'N' as nat, 'U' as nat, 'L' as nat, 'L' as nat, ')' as nat]))
          else args[i];
      } else {
        values[i] := Stored(t, args[i]);
      }
      i := i + 1;
    }
    assert Gap(types) == |types|;
    forall j | 0 <= j < |types|
      ensures IsFetched(types[j], args[j], values[j]) && (values[j].Text? ==> values[j].text.Some?)
    {
      StoredIsFetched(types[j], args[j]);
      StoredTexts(types[j], args[j]);
    }
    ok := true;
  }

  // ---------- After a successful parse ----------

  /** A slot is without a type exactly when no directive refers to it: fetching fails for gaps in the positions only. */
  lemma GapsAreUnused(s: string, i: nat)
    requires Parse(s).Ok? && i < |Parse(s).value.st.args.types|
    ensures
      var Parsed(dirs, st) := Parse(s).value;
      st.args.types[i] == TypeNone <==> forall k :: 0 <= k < |dirs| ==> i !in Uses(dirs[k])
  {
    hide Parse, ParseFrom, ScanAt, Records, MakeDirective, Segmented;
    ParseIsSound(s);
    var Parsed(dirs, st) := Parse(s).value;
    forall k | 0 <= k < |dirs| && i in Uses(dirs[k])
      ensures st.args.types[i] != TypeNone
    {
      assert Typed(ScanAt(s, dirs[k].dirStart), dirs[k], st.args.types);
    }
  }

  /** What the formatter checks before it executes a directive, and aborts if it does not hold. */
  ghost predicate Executable(d: Directive, types: seq<ArgType>) {
    && (d.conversion == '%' ==> d.arg == ARG_NONE)
    && (d.conversion != '%' ==> d.arg != ARG_NONE && 0 <= d.arg < |types| && types[d.arg] != TypeNone)
    && (d.conversion == 'n' ==> IsCountType(types[d.arg]))
    && (d.conversion in ['f', 'F', 'e', 'E', 'g', 'G', 'a', 'A'] ==> IsFloatType(types[d.arg]))
    && (d.widthArg != ARG_NONE ==> 0 <= d.widthArg < |types| && types[d.widthArg] == TypeInt)
    && (d.precisionArg != ARG_NONE ==> 0 <= d.precisionArg < |types| && types[d.precisionArg] == TypeInt)
  }

  lemma ConversionTypes(c: char, flags: nat)
    requires ConversionOf(c, flags).Some?
    ensures
      var Conversion(argType, letter) := ConversionOf(c, flags).value;
      && (letter == 'n' ==> IsCountType(argType))
      && (letter in ['f', 'F', 'e', 'E', 'g', 'G', 'a', 'A'] ==> IsFloatType(argType))
  {
  }

  lemma DirectiveIsExecutable(s: string, d: Directive, types: seq<ArgType>)
    requires Faithful(s, d) && Typed(ScanAt(s, d.dirStart), d, types)
    ensures Executable(d, types)
  {
    hide ScanParts, ConversionOf;
    var (p, _) := ScanAt(s, d.dirStart).value;
    ConversionTypes(CharAt(s[d.dirStart + 1..], p.letterAt), p.sizeFlags);
  }

  /** No directive of a parsed format makes the formatter abort. */
  lemma NothingAborts(s: string, k: nat)
    requires Parse(s).Ok? && k < |Parse(s).value.dirs|
    ensures Executable(Parse(s).value.dirs[k], Parse(s).value.st.args.types)
  {
    hide Parse, ParseFrom, ScanAt, Records, Typed, Executable;
    ParseIsSound(s);
    var Parsed(dirs, st) := Parse(s).value;
    DirectiveIsExecutable(s, dirs[k], st.args.types);
  }

  /** After parsing and fetching, every argument is used by some directive. */
  lemma EveryArgumentIsUsed(s: string, i: nat)
    requires Parse(s).Ok? && i < |Parse(s).value.st.args.types| && TypeNone !in Parse(s).value.st.args.types
    ensures exists k :: 0 <= k < |Parse(s).value.dirs| && i in Uses(Parse(s).value.dirs[k])
  {
    hide Parse, Uses;
    GapsAreUnused(s, i);
    assert Parse(s).value.st.args.types[i] in Parse(s).value.st.args.types;
  }
}
