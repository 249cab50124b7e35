/**
 Which formats are accepted: those that consist of directives of the grammar and of other characters, in which all references
 to an argument agree on its type.
 */
module Acceptance {
  import opened Integers
  import opened Digits
  import opened Xsize
  import opened FormatSyntax
  import opened FormatGrammar
  import opened ParserSpec
  import opened ParserProperties
  import opened ArgumentOrder

  // ---------- The references of a directive ----------

  /** The argument that a part refers to, if n arguments were taken by parts without a position. */
  ghost function IndexOf(position: string, n: nat): nat
    requires position == "" || IsPosition(position)
  {
    if position == "" then n else NumberOf(position[..|position| - 1]) - 1
  }

  /** How many are taken after a part. */
  function TakenAfter(there: bool, position: string, n: nat): nat {
    if there && position == "" then n + 1 else n
  }

  function AfterWidth(g: Pieces, n: nat): nat {
    TakenAfter(g.width == "*", g.widthPosition, n)
  }

  function AfterPrecision(g: Pieces, n: nat): nat {
    TakenAfter(g.precision == ".*", g.precisionPosition, AfterWidth(g, n))
  }

  function AfterLetter(g: Pieces, n: nat): nat {
    TakenAfter(g.letter != '%', g.position, AfterPrecision(g, n))
  }

  /** The types suit all references of a directive. */
  ghost predicate Suited(g: Pieces, n: nat, types: seq<ArgType>)
    requires g.WellFormed()
  {
    && (g.width == "*" ==> HasType(types, IndexOf(g.widthPosition, n), TypeInt))
    && (g.precision == ".*" ==> HasType(types, IndexOf(g.precisionPosition, AfterWidth(g, n)), TypeInt))
    && (g.letter != '%' ==> HasType(types, IndexOf(g.position, AfterPrecision(g, n)), AskedType(g.letter, g.modifiers)))
  }

  // ---------- The grammar of formats ----------

  /** A directive with these pieces stands at a place in the format. */
  ghost predicate Stands(s: string, i: nat, g: Pieces) {
    i < |s| && s[i] == '%' && g.WellFormed() && g.Before("") <= s[i + 1..]
  }

  /** Where it ends. */
  ghost function EndOf(i: nat, g: Pieces): nat {
    i + 1 + |g.Before("")|
  }

  /** From a place on, the format consists of characters other than % and of directives, and the types suit all references. */
  ghost predicate Acceptable(s: string, i: nat, n: nat, types: seq<ArgType>)
    requires i <= |s|
    decreases |s| - i
  {
    || i == |s|
    || (s[i] != '%' && Acceptable(s, i + 1, n, types))
    || exists g :: Stands(s, i, g) && Suited(g, n, types) && Acceptable(s, EndOf(i, g), AfterLetter(g, n), types)
  }

  // ---------- What is accepted is acceptable ----------

  lemma {:induction false} ParseFromKeepsTypes(s: string, i: nat, dirs: seq<Directive>, capacity: Size, st: State)
    requires i <= |s| && ParseFrom(s, i, dirs, capacity, st).Ok? && |st.args.types| <= SIZE_MAX
    ensures Kept(st.args.types, ParseFrom(s, i, dirs, capacity, st).value.st.args.types)
    ensures |ParseFrom(s, i, dirs, capacity, st).value.st.args.types| <= SIZE_MAX
    decreases |s| - i
  {
    hide ParseDirective;
    if i == |s| {
    } else if s[i] != '%' {
      ParseFromKeepsTypes(s, i + 1, dirs, capacity, st);
    } else {
      DirectiveEffect(s, i, st);
      var (d, st') := ParseDirective(s, i, st).value;
      ParseFromKeepsTypes(s, d.dirEnd, dirs + [d], DirectivesGrown(|dirs| + 1, capacity).value, st');
    }
  }

  lemma PartIndex(there: bool, position: string, index: Size, n: nat, next: nat)
    requires position == "" || IsPosition(position)
    requires Counts(there, PositionOf(position), index, n, next)
    ensures next == TakenAfter(there, position, n) && (there ==> index == IndexOf(position, n))
  {
    hide NumberOf;
    PositionLength(position);
  }

  lemma PositionsOfPieces(g: Pieces)
    requires g.WellFormed()
    ensures
      var p := PartsOf(g);
      && (p.width.Star? <==> g.width == "*") && PositionOfStar(p.width) == PositionOf(g.widthPosition)
      && (p.precision.Star? <==> g.precision == ".*") && PositionOfStar(p.precision) == PositionOf(g.precisionPosition)
      && p.position == PositionOf(g.position)
  {
    hide IsPosition, FlagsIn, SizeFlags, IsConversionLetter, NumberOf;
    PositionLength("");
  }

  lemma TextFollows(s: string, i: nat, end: nat, text: string)
    requires i < end <= |s| && s[i..end] == "%" + text
    ensures text <= s[i + 1..] && end == i + 1 + |text|
  {
    assert s[i..end][1..] == text;
    assert s[i + 1..][..|text|] == s[i..end][1..];
  }

  /** A directive that is parsed has references that the types afterwards suit. */
  lemma DirectiveIsSuited(s: string, i: nat, st: State, types: seq<ArgType>) returns (g: Pieces)
    requires i < |s| && s[i] == '%' && ParseDirective(s, i, st).Ok?
    requires Kept(ParseDirective(s, i, st).value.1.args.types, types)
    ensures
      var (d, st') := ParseDirective(s, i, st).value;
      Stands(s, i, g) && d.dirEnd == EndOf(i, g) && Suited(g, st.posn, types) && st'.posn == AfterLetter(g, st.posn)
  {
    hide ParseDirective, Pieces.Before, IsPosition, IsWidthText, IsPrecisionText, IsConversionLetter, ScanAt, Records, PartsOf,
      AskedType, AskedLetter, Counts, IndexOf, PositionOf, PositionOfStar, TakenAfter, Kept;
    DirectiveEffect(s, i, st);
    var (d, st') := ParseDirective(s, i, st).value;
    TypedStays(ScanAt(s, i), d, st'.args.types, types);
    g := DirectiveIsGrammatical(s, d);
    TextFollows(s, i, d.dirEnd, g.Before(""));
    var n, m := PartsCount(s, i, st);
    PositionsOfPieces(g);
    LetterTakes(g.letter, g.modifiers);
    PartIndex(g.width == "*", g.widthPosition, d.widthArg, st.posn, n);
    PartIndex(g.precision == ".*", g.precisionPosition, d.precisionArg, n, m);
    PartIndex(g.letter != '%', g.position, d.arg, m, st'.posn);
  }

  lemma {:induction false} ParsedIsAcceptable(s: string, i: nat, dirs: seq<Directive>, capacity: Size, st: State)
    requires i <= |s| && ParseFrom(s, i, dirs, capacity, st).Ok? && |st.args.types| <= SIZE_MAX
    ensures Acceptable(s, i, st.posn, ParseFrom(s, i, dirs, capacity, st).value.st.args.types)
    decreases |s| - i
  {
    hide ParseDirective, Suited, Stands, EndOf, AfterLetter, Kept;
    if i == |s| {
    } else if s[i] != '%' {
      ParsedIsAcceptable(s, i + 1, dirs, capacity, st);
    } else {
      DirectiveEffect(s, i, st);
      var (d, st') := ParseDirective(s, i, st).value;
      var capacity' := DirectivesGrown(|dirs| + 1, capacity).value;
      ParseFromKeepsTypes(s, d.dirEnd, dirs + [d], capacity', st');
      ParsedIsAcceptable(s, d.dirEnd, dirs + [d], capacity', st');
      var g := DirectiveIsSuited(s, i, st, ParseFrom(s, i, dirs, capacity, st).value.st.args.types);
    }
  }

  /** Only an acceptable format is accepted; the types that suit it are those of the argument table. */
  lemma OnlyAcceptable(s: string)
    requires Parse(s).Ok?
    ensures Acceptable(s, 0, 0, Parse(s).value.st.args.types) && |Parse(s).value.st.args.types| <= SIZE_MAX
  {
    hide ParseFrom, Acceptable;
    ParseFromKeepsTypes(s, 0, [], 7, INITIAL_STATE);
    ParsedIsAcceptable(s, 0, [], 7, INITIAL_STATE);
  }

  // ---------- What is acceptable is accepted ----------

  /** The table agrees with the types as far as it is filled, and has not grown beyond need. */
  ghost predicate Agrees(t: Table, types: seq<ArgType>) {
    && |t.types| <= |types| && t.capacity <= 2 * |types| + 7
    && forall j :: 0 <= j < |t.types| && t.types[j] != TypeNone ==> t.types[j] == types[j]
  }

  /** Tables of this size need less than all memory. */
  const LONGEST := 0x100_0000_0000_0000

  lemma SuitedRegisters(t: Table, index: Size, argType: ArgType, types: seq<ArgType>)
    requires Agrees(t, types) && HasType(types, index, argType)
    ensures
      var r := Register(t, index, argType);
      !r.Invalid? && (r.Ok? ==> Agrees(r.value, types)) && (|types| <= LONGEST ==> r.Ok?)
  {
    hide Register;
    RegisterExactly(t, index, argType);
  }

  lemma StarAccepted(f: Field, position: string, st: State, types: seq<ArgType>)
    requires Agrees(st.args, types) && |types| <= SIZE_MAX && (position == "" || IsPosition(position))
    requires PositionOfStar(f) == PositionOf(position)
    requires f.Star? ==> HasType(types, IndexOf(position, st.posn), TypeInt)
    ensures
      var r := RegisterStar(f, st);
      && !r.Invalid? && (|types| <= LONGEST ==> r.Ok?)
      && (r.Ok? ==> Agrees(r.value.1.args, types) && r.value.1.posn == TakenAfter(f.Star?, position, st.posn))
  {
    hide Register, Agrees, NumberOf, IsPosition;
    PositionLength(position);
    if f.Star? {
      SuitedRegisters(st.args, IndexOf(position, st.posn), TypeInt, types);
    }
  }

  lemma ConversionAccepted(position: string, argType: ArgType, st: State, types: seq<ArgType>)
    requires Agrees(st.args, types) && |types| <= SIZE_MAX && (position == "" || IsPosition(position))
    requires argType != TypeNone ==> HasType(types, IndexOf(position, st.posn), argType)
    ensures
      var r := RegisterConversion(PositionOf(position), argType, st);
      && !r.Invalid? && (|types| <= LONGEST ==> r.Ok?)
      && (r.Ok? ==> Agrees(r.value.1.args, types) && r.value.1.posn == TakenAfter(argType != TypeNone, position, st.posn))
  {
    hide Register, Agrees, NumberOf, IsPosition;
    PositionLength(position);
    if argType != TypeNone {
      SuitedRegisters(st.args, IndexOf(position, st.posn), argType, types);
    }
  }

  lemma PiecesLength(g: Pieces)
    requires g.WellFormed()
    ensures PartsOf(g).letterAt + 1 == |g.Before("")|
  {
    hide FlagsIn, SizeFlags, IsConversionLetter, IsWidthText, IsPrecisionText, IsPosition, WidthField, PrecisionField, PositionOf;
  }

  lemma StandingIsScanned(s: string, i: nat, g: Pieces)
    requires Stands(s, i, g)
    ensures
      var p := PartsOf(g);
      && ScanParts(s[i + 1..]) == p && GoodPositions(p) && EndOf(i, g) <= |s| && p.letterAt + 1 == |g.Before("")|
      && ConversionOf(CharAt(s[i + 1..], p.letterAt), p.sizeFlags) ==
         Some(Conversion(AskedType(g.letter, g.modifiers), AskedLetter(g.letter)))
  {
    hide ScanParts, ConversionOf, Pieces.Before, IsConversionLetter, IsWidthText, IsPrecisionText, IsPosition, AskedType, AskedLetter;
    var r := s[i + 1..];
    var rest := r[|g.Before("")|..];
    BeforeAll(g, rest);
    assert r == g.Before(rest);
    PiecesScanned(g, rest);
    LetterScanned(g);
    ModifiersMean(g.letter, g.modifiers);
    PiecesLength(g);
  }

  lemma DirectiveAccepted(s: string, i: nat, g: Pieces, st: State, types: seq<ArgType>)
    requires Stands(s, i, g) && Suited(g, st.posn, types) && Agrees(st.args, types) && |types| <= SIZE_MAX
    ensures
      var r := ParseDirective(s, i, st);
      && !r.Invalid? && (|types| <= LONGEST ==> r.Ok?)
      && (r.Ok? ==>
            && r.value.0.dirEnd == EndOf(i, g)
            && Agrees(r.value.1.args, types) && r.value.1.posn == AfterLetter(g, st.posn))
  {
    hide ScanParts, ConversionOf, RegisterStar, RegisterConversion, PartsOf, Pieces.Before, IsPosition, IsWidthText, IsPrecisionText,
      IsConversionLetter, Agrees, IndexOf, TakenAfter, AskedType, AskedLetter, PositionOf, PositionOfStar;
    StandingIsScanned(s, i, g);
    PositionsOfPieces(g);
    LetterTakes(g.letter, g.modifiers);
    var p, argType := PartsOf(g), AskedType(g.letter, g.modifiers);
    var st1 := st.(maxWidth := Max(st.maxWidth, p.width.TextLength()));
    StarAccepted(p.width, g.widthPosition, st1, types);
    if RegisterStar(p.width, st1).Ok? {
      var st2 := RegisterStar(p.width, st1).value.1;
      var st3 := st2.(maxPrecision := Max(st2.maxPrecision, p.precision.TextLength()));
      StarAccepted(p.precision, g.precisionPosition, st3, types);
      if RegisterStar(p.precision, st3).Ok? {
        ConversionAccepted(g.position, argType, RegisterStar(p.precision, st3).value.1, types);
      }
    }
  }

  lemma DirectivesFit(count: nat, capacity: Size, i: nat, end: nat)
    requires count < capacity <= 2 * i + 7 && count <= i < end
    ensures
      var r := DirectivesGrown(count + 1, capacity);
      !r.Invalid? && (r.Ok? ==> count + 1 < r.value <= 2 * end + 7) && (end < LONGEST ==> r.Ok?)
  {
    hide DirectivesGrown;
    DirectivesGrownExactly(count + 1, capacity);
  }

  lemma {:induction false} AcceptableIsParsed(s: string, i: nat, dirs: seq<Directive>, capacity: Size, st: State, types: seq<ArgType>)
    requires i <= |s| && |types| <= SIZE_MAX && Acceptable(s, i, st.posn, types) && Agrees(st.args, types)
    requires |dirs| <= i && |dirs| < capacity <= 2 * i + 7
    ensures
      var r := ParseFrom(s, i, dirs, capacity, st);
      !r.Invalid? && (|s| < LONGEST && |types| <= LONGEST ==> r.Ok?)
    decreases |s| - i
  {
    hide ParseDirective, Suited, AfterLetter, Agrees, DirectivesGrown, Pieces.Before, Pieces.WellFormed;
    if i == |s| {
    } else if s[i] != '%' {
      AcceptableIsParsed(s, i + 1, dirs, capacity, st, types);
    } else {
      var g :| Stands(s, i, g) && Suited(g, st.posn, types) && Acceptable(s, EndOf(i, g), AfterLetter(g, st.posn), types);
      DirectiveAccepted(s, i, g, st, types);
      if ParseDirective(s, i, st).Ok? {
        var (d, st') := ParseDirective(s, i, st).value;
        DirectivesFit(|dirs|, capacity, i, d.dirEnd);
        if DirectivesGrown(|dirs| + 1, capacity).Ok? {
          AcceptableIsParsed(s, d.dirEnd, dirs + [d], DirectivesGrown(|dirs| + 1, capacity).value, st', types);
        }
      }
    }
  }

  /** No acceptable format is rejected, and memory suffices for all whose length and whose positions are below 2^56. */
  lemma AllAcceptable(s: string, types: seq<ArgType>)
    requires Acceptable(s, 0, 0, types) && |types| <= SIZE_MAX
    ensures !Parse(s).Invalid? && (|s| < LONGEST && |types| <= LONGEST ==> Parse(s).Ok?)
  {
    hide ParseFrom, Acceptable;
    AcceptableIsParsed(s, 0, [], 7, INITIAL_STATE, types);
  }

  /**
   If memory suffices, a format is accepted exactly if it consists of directives of the grammar and of other characters,
   and there are types, one for each argument, that suit all references.
   */
  lemma AcceptedExactly(s: string)
    requires !Parse(s).OutOfMemory?
    ensures Parse(s).Ok? <==> exists types :: |types| <= SIZE_MAX && Acceptable(s, 0, 0, types)
  {
    hide Parse, Acceptable;
    if Parse(s).Ok? {
      OnlyAcceptable(s);
    }
    forall types | |types| <= SIZE_MAX && Acceptable(s, 0, 0, types)
      ensures Parse(s).Ok?
    {
      AllAcceptable(s, types);
    }
  }
}
