/** The inverse of the parser: the format that is handed to snprintf for one directive. */
module Reprint {
  import opened Texts
  import opened Integers
  import opened Xsize
  import opened FormatSyntax
  import opened FormatGrammar
  import opened ParserSpec
  import opened ParserProperties

  // ---------- What is printed ----------

  function Mark(flag: Flag, c: char, flags: set<Flag>): string {
    if flag in flags then [c] else ""
  }

  function FlagsText(flags: set<Flag>): string {
    Mark(Group, '\'', flags) + Mark(Left, '-', flags) + Mark(ShowSign, '+', flags) + Mark(Space, ' ', flags)
    + Mark(Alt, '#', flags) + Mark(Localized, 'I', flags) + Mark(Zero, '0', flags)
  }

  function SizeText(argType: ArgType): string {
    match argType
    case TypeLongLongInt => "ll"
    case TypeULongLongInt => "ll"
    case TypeLongInt => "l"
    case TypeULongInt => "l"
    case TypeWideChar => "l"
    case TypeWideString => "l"
    case TypeLongDouble => "L"
    case _ => ""
  }

  /** A directive without its % sign. */
  function DirectiveText(flags: set<Flag>, width: string, precision: string, argType: ArgType, letter: char): string {
    FlagsText(flags) + (width + (precision + (SizeText(argType) + [letter])))
  }

  /** Without padding and precision of our own, everything is left to snprintf; otherwise the parts are left out. */
  datatype Ourselves = Ourselves(pad: bool, precision: bool)

  function PrintedFlags(flags: set<Flag>, o: Ourselves): set<Flag> {
    if o.pad then flags - {Zero} else flags
  }

  ghost function PrintedWidth(s: string, d: Directive, o: Ourselves): string
    requires InText(s, d)
  {
    if o.pad then "" else s[d.widthStart..d.widthEnd]
  }

  ghost function PrintedPrecision(s: string, d: Directive, o: Ourselves): string
    requires InText(s, d)
  {
    if o.precision then "" else s[d.precisionStart..d.precisionEnd]
  }

  ghost function Printed(s: string, d: Directive, flags: set<Flag>, argType: ArgType, o: Ourselves): string
    requires InText(s, d)
  {
    "%" + DirectiveText(PrintedFlags(flags, o), PrintedWidth(s, d, o), PrintedPrecision(s, d, o), argType, d.conversion)
  }

  // ---------- Printing into the buffer ----------

  method PutIf(condition: bool, c: char, buf: array<char>, n: nat) returns (fbp: nat)
    requires n < buf.Length
    modifies buf
    ensures fbp == n + if condition then 1 else 0
    ensures buf[..fbp] == old(buf[..n]) + if condition then [c] else ""
  {
    fbp := n;
    if condition {
      buf[fbp] := c;
      fbp := fbp + 1;
    }
  }

  /** Puts a mark after a text that already stands in the buffer. */
  method PutMark(flag: Flag, c: char, flags: set<Flag>, buf: array<char>, n: nat, ghost before: string, ghost text: string)
    returns (fbp: nat, ghost longer: string)
    requires n < buf.Length && buf[..n] == before + text
    modifies buf
    ensures n <= fbp <= n + 1
    ensures longer == text + Mark(flag, c, flags) && buf[..fbp] == before + longer
  {
    fbp := PutIf(flag in flags, c, buf, n);
    longer := text + Mark(flag, c, flags);
    assert before + text + Mark(flag, c, flags) == before + longer;
  }

  lemma MarkSame(flag: Flag, c: char, flags: set<Flag>, others: set<Flag>)
    requires flag in flags <==> flag in others
    ensures Mark(flag, c, flags) == Mark(flag, c, others)
  {
  }

  lemma MarkNone(flag: Flag, c: char, flags: set<Flag>)
    requires flag !in flags
    ensures Mark(flag, c, flags) == ""
  {
  }

  lemma NoZero(flags: set<Flag>)
    ensures
      FlagsText(flags - {Zero}) ==
      Mark(Group, '\'', flags) + Mark(Left, '-', flags) + Mark(ShowSign, '+', flags) + Mark(Space, ' ', flags)
      + Mark(Alt, '#', flags) + Mark(Localized, 'I', flags)
  {
    hide Mark;
    var f := flags - {Zero};
    MarkSame(Group, '\'', flags, f);
    MarkSame(Left, '-', flags, f);
    MarkSame(ShowSign, '+', flags, f);
    MarkSame(Space, ' ', flags, f);
    MarkSame(Alt, '#', flags, f);
    MarkSame(Localized, 'I', flags, f);
    MarkNone(Zero, '0', f);
  }

  method PutFlags(flags: set<Flag>, pad: bool, buf: array<char>, n: nat) returns (fbp: nat)
    requires n + 7 <= buf.Length
    modifies buf
    ensures n <= fbp <= n + 7
    ensures buf[..fbp] == old(buf[..n]) + FlagsText(if pad then flags - {Zero} else flags)
  {
    hide Mark;
    ghost var before := buf[..n];
    ghost var g, l, p, s, a, i, z;
    assert buf[..n] == before + "";
    fbp, g := PutMark(Group, '\'', flags, buf, n, before, "");
    fbp, l := PutMark(Left, '-', flags, buf, fbp, before, g);
    fbp, p := PutMark(ShowSign, '+', flags, buf, fbp, before, l);
    fbp, s := PutMark(Space, ' ', flags, buf, fbp, before, p);
    fbp, a := PutMark(Alt, '#', flags, buf, fbp, before, s);
    fbp, i := PutMark(Localized, 'I', flags, buf, fbp, before, a);
    assert g == Mark(Group, '\'', flags);
    NoZero(flags);
    if !pad {
      fbp, z := PutMark(Zero, '0', flags, buf, fbp, before, i);
    }
  }

  method PutSize(argType: ArgType, buf: array<char>, n: nat) returns (fbp: nat)
    requires n + 2 < buf.Length
    modifies buf
    ensures n <= fbp <= n + 2
    ensures buf[..fbp] == old(buf[..n]) + SizeText(argType)
  {
    var longLong := argType in {TypeLongLongInt, TypeULongLongInt};
    fbp := PutIf(longLong, 'l', buf, n);
    fbp := PutIf(longLong || argType in {TypeLongInt, TypeULongInt, TypeWideChar, TypeWideString}, 'l', buf, fbp);
    fbp := PutIf(argType == TypeLongDouble, 'L', buf, fbp);
  }

  method PutFields(s: string, d: Directive, o: Ourselves, buf: array<char>, n: nat) returns (fbp: nat)
    requires InText(s, d)
    requires n + (d.widthEnd - d.widthStart) + (d.precisionEnd - d.precisionStart) <= buf.Length
    modifies buf
    ensures n <= fbp <= n + (d.widthEnd - d.widthStart) + (d.precisionEnd - d.precisionStart)
    ensures buf[..fbp] == old(buf[..n]) + PrintedWidth(s, d, o) + PrintedPrecision(s, d, o)
  {
    fbp := n;
    if !o.pad {
      if d.widthStart != d.widthEnd {
        fbp := PutText(s, d.widthStart, d.widthEnd, buf, fbp);
      }
    }
    assert buf[..fbp] == old(buf[..n]) + PrintedWidth(s, d, o);
    if !o.precision {
      if d.precisionStart != d.precisionEnd {
        fbp := PutText(s, d.precisionStart, d.precisionEnd, buf, fbp);
      }
    }
  }

  lemma SixPieces(b: string, flags: string, width: string, precision: string, size: string, letter: string)
    ensures b + flags + width + precision + size + letter == b + (flags + (width + (precision + (size + letter))))
  {
  }

  /**
   Builds the format for one directive in a buffer that is sized for the longest width and the longest precision
   of the whole format.
   */
  method PrintDirective(s: string, d: Directive, flags: set<Flag>, argType: ArgType, o: Ourselves,
                        maxWidth: Size, maxPrecision: Size, buf: array<char>)
    returns (length: nat)
    requires InText(s, d)
    requires d.widthEnd - d.widthStart <= maxWidth && d.precisionEnd - d.precisionStart <= maxPrecision
    requires buf.Length == Xsum4(7, maxWidth, maxPrecision, 6) && !SizeOverflow(buf.Length)
    modifies buf
    ensures length < buf.Length && buf[length] == '\0'
    ensures buf[..length] == Printed(s, d, flags, argType, o)
  {
    hide FlagsText, SizeText, Xsum4, PrintedWidth, PrintedPrecision;
    SaturatedSum4(7, maxWidth, maxPrecision, 6);
    ghost var f, w, q := FlagsText(PrintedFlags(flags, o)), PrintedWidth(s, d, o), PrintedPrecision(s, d, o);
    var fbp := PutIf(true, '%', buf, 0);
    fbp := PutFlags(flags, o.pad, buf, fbp);
    fbp := PutFields(s, d, o, buf, fbp);
    fbp := PutSize(argType, buf, fbp);
    assert buf[..fbp] == "%" + f + w + q + SizeText(argType);
    buf[fbp] := d.conversion;
    buf[fbp + 1] := '\0';
    length := fbp + 1;
    assert buf[..length] == buf[..fbp] + [d.conversion];
    SixPieces("%", f, w, q, SizeText(argType), [d.conversion]);
  }

  // ---------- Reading it back ----------

  lemma {:induction false} FlagsJoin(a: string, b: string)
    ensures FlagsIn(a + b) == FlagsIn(a) + FlagsIn(b)
  {
    if a == "" {
      assert a + b == b;
    } else {
      FlagsJoin(a[1..], b);
      assert (a + b)[1..] == a[1..] + b;
    }
  }

  lemma MarkRead(flag: Flag, c: char, flags: set<Flag>)
    requires FlagOf(c) == Some(flag)
    ensures FlagsIn(Mark(flag, c, flags)) == flags * {flag}
  {
    if flag in flags {
      assert FlagsIn([c]) == {flag} + FlagsIn([c][1..]);
    }
  }

  lemma MarksRead(flags: set<Flag>)
    ensures FlagsIn(Mark(Group, '\'', flags)) == flags * {Group} && FlagsIn(Mark(Left, '-', flags)) == flags * {Left}
    ensures FlagsIn(Mark(ShowSign, '+', flags)) == flags * {ShowSign} && FlagsIn(Mark(Space, ' ', flags)) == flags * {Space}
    ensures FlagsIn(Mark(Alt, '#', flags)) == flags * {Alt} && FlagsIn(Mark(Localized, 'I', flags)) == flags * {Localized}
    ensures FlagsIn(Mark(Zero, '0', flags)) == flags * {Zero}
  {
    hide FlagsIn, Mark;
    MarkRead(Group, '\'', flags);
    MarkRead(Left, '-', flags);
    MarkRead(ShowSign, '+', flags);
    MarkRead(Space, ' ', flags);
    MarkRead(Alt, '#', flags);
    MarkRead(Localized, 'I', flags);
    MarkRead(Zero, '0', flags);
  }

  lemma AllFlags(flags: set<Flag>)
    ensures flags * {Group} + flags * {Left} + flags * {ShowSign} + flags * {Space} + flags * {Alt} + flags * {Localized}
            + flags * {Zero} == flags
  {
    forall f | f in flags
      ensures f in {Group, Left, ShowSign, Space, Alt, Localized, Zero}
    {
      match f case Group => case Left => case ShowSign => case Space => case Alt => case Zero => case Localized =>
    }
  }

  lemma FlagsReadBack(flags: set<Flag>)
    ensures FlagsIn(FlagsText(flags)) == flags
  {
    hide FlagsIn, FlagOf, Mark;
    var g, l, p, s := Mark(Group, '\'', flags), Mark(Left, '-', flags), Mark(ShowSign, '+', flags), Mark(Space, ' ', flags);
    var a, i, z := Mark(Alt, '#', flags), Mark(Localized, 'I', flags), Mark(Zero, '0', flags);
    MarksRead(flags);
    FlagsJoin(g + l + p + s + a + i, z);
    FlagsJoin(g + l + p + s + a, i);
    FlagsJoin(g + l + p + s, a);
    FlagsJoin(g + l + p, s);
    FlagsJoin(g + l, p);
    FlagsJoin(g, l);
    AllFlags(flags);
  }

  lemma FlagsTextIsFlags(flags: set<Flag>)
    ensures forall i :: 0 <= i < |FlagsText(flags)| ==> FlagsText(flags)[i] in "'-+ #0I"
  {
  }

  /** The integer promotions: what snprintf is handed for a char or short is an int. */
  function Promoted(argType: ArgType): ArgType {
    match argType
    case TypeSChar => TypeInt
    case TypeShort => TypeInt
    case TypeUChar => TypeUInt
    case TypeUShort => TypeUInt
    case _ => argType
  }

  /** What the parser finds for a conversion other than n and %. */
  ghost predicate IsConversion(argType: ArgType, letter: char) {
    && letter != 'n' && letter != '%'
    && exists c: char, flags: nat :: ConversionOf(c, flags) == Some(Conversion(argType, letter))
  }

  /** What the size modifiers of a type add up to. */
  function SizeValue(argType: ArgType): nat {
    match argType
    case TypeLongLongInt => 16
    case TypeULongLongInt => 16
    case TypeLongInt => 8
    case TypeULongInt => 8
    case TypeWideChar => 8
    case TypeWideString => 8
    case TypeLongDouble => 4
    case _ => 0
  }

  lemma SizeTextRead(argType: ArgType)
    ensures SizeFlags(SizeText(argType), 0) == SizeValue(argType)
    ensures forall i :: 0 <= i < |SizeText(argType)| ==> SizeText(argType)[i] in "hLljzZt"
  {
    hide SizeFlags;
    ModifierFlags(SizeText(argType));
  }

  /** Every conversion is found again for the size modifiers of its type. */
  lemma ConversionRead(c: char, flags: nat)
    requires ConversionOf(c, flags).Some? && ConversionOf(c, flags).value.letter !in ['n', '%']
    ensures
      var Conversion(argType, letter) := ConversionOf(c, flags).value;
      ConversionOf(letter, SizeValue(argType)) == Some(Conversion(Promoted(argType), letter))
  {
    assert !BitOf(0, 1) && !BitOf(0, 2) && !BitOf(0, 4) && BitOf(4, 4) && !BitOf(8, 4);
    hide BitOf;
    var Conversion(argType, letter) := ConversionOf(c, flags).value;
    match c
    case 'd' => case 'i' =>
    case 'o' => case 'u' => case 'x' => case 'X' =>
    case 'f' => case 'F' => case 'e' => case 'E' => case 'g' => case 'G' => case 'a' => case 'A' =>
    case 'c' => case 'C' => case 's' => case 'S' =>
    case 'p' =>
    case _ =>
  }

  lemma ReadAgain(c: char, flags: nat, argType: ArgType, letter: char)
    requires ConversionOf(c, flags) == Some(Conversion(argType, letter)) && letter !in ['n', '%']
    ensures ConversionOf(letter, SizeValue(argType)) == Some(Conversion(Promoted(argType), letter))
  {
    hide ConversionOf;
    ConversionRead(c, flags);
  }

  lemma ConversionIsRead(argType: ArgType, letter: char)
    requires IsConversion(argType, letter)
    ensures ConversionOf(letter, SizeValue(argType)) == Some(Conversion(Promoted(argType), letter))
  {
    hide ConversionOf;
    var c: char, flags: nat :| ConversionOf(c, flags) == Some(Conversion(argType, letter));
    ReadAgain(c, flags, argType, letter);
  }

  /** How a printed directive is cut into parts. */
  ghost function PrintedParts(flags: set<Flag>, width: string, precision: string, argType: ArgType): Parts {
    var widthAt := |FlagsText(flags)|;
    var precisionAt := widthAt + |width|;
    var sizeAt := precisionAt + |precision|;
    Parts(NoPosition, 0, flags, widthAt, WidthField(width, ""), precisionAt, PrecisionField(precision, ""),
          sizeAt, sizeAt + |SizeText(argType)|, SizeValue(argType))
  }

  /** A printed directive is of the grammar of directives. */
  lemma PrintedIsGrammatical(flags: set<Flag>, width: string, precision: string, argType: ArgType, letter: char)
    returns (g: Pieces)
    requires IsWidthText(width) && IsPrecisionText(precision) && IsConversion(argType, letter)
    ensures g == Pieces("", FlagsText(flags), width, "", precision, "", SizeText(argType), letter) && g.WellFormed()
    ensures g.Before("") == DirectiveText(flags, width, precision, argType, letter)
    ensures PartsOf(g) == PrintedParts(flags, width, precision, argType)
  {
    hide FlagsText, SizeText, FlagsIn, SizeFlags, ConversionOf, IsWidthText, IsPrecisionText, IsConversion, SizeValue,
      WidthField, PrecisionField, IsConversionLetter;
    g := Pieces("", FlagsText(flags), width, "", precision, "", SizeText(argType), letter);
    FlagsTextIsFlags(flags);
    FlagsReadBack(flags);
    SizeTextRead(argType);
    ConversionIsRead(argType, letter);
    OnlyTheseLetters(letter, SizeValue(argType));
    assert width + "" == width && precision + "" == precision && [letter] + "" == [letter];
  }

  lemma ScannedAs(t: string, p: Parts, c: Conversion)
    requires ScanParts(t) == p && p.letterAt < |t| && ConversionOf(t[p.letterAt], p.sizeFlags) == Some(c)
    ensures ScanDirective(t) == Some((p, c))
  {
    hide ScanParts, ConversionOf;
  }

  lemma StartOf(t: string, i: nat, w: string, rest: string)
    requires i <= |t| && t[i..] == w + "" + rest
    ensures i + |w| <= |t| && t[i..i + |w|] == w
  {
    assert t[i..][..|w|] == w;
    assert t[i..i + |w|] == t[i..][..|w|];
  }

  lemma PrintedPieces(g: Pieces)
    requires g.WellFormed() && g.widthPosition == "" && g.precisionPosition == ""
    ensures
      var t, p := g.Before(""), PartsOf(g);
      && p.letterAt + 1 == |t| && p.widthAt <= p.precisionAt <= p.sizeAt <= |t|
      && t[p.widthAt..p.precisionAt] == g.width && t[p.precisionAt..p.sizeAt] == g.precision
  {
    hide Pieces.WellFormed, FlagsIn, SizeFlags, WidthField, PrecisionField, PositionOf;
    PiecesCut(g, "");
    var t, p := g.Before(""), PartsOf(g);
    var z := g.modifiers + ([g.letter] + "");
    StartOf(t, p.precisionAt, g.precision, z);
    StartOf(t, p.widthAt, g.width, g.precision + g.precisionPosition + z);
  }

  /** A printed directive, read again, has the parts it was printed from, and nothing is left over. */
  lemma TextRead(flags: set<Flag>, width: string, precision: string, argType: ArgType, letter: char)
    requires IsWidthText(width) && IsPrecisionText(precision) && IsConversion(argType, letter)
    ensures
      var t := DirectiveText(flags, width, precision, argType, letter);
      var p := PrintedParts(flags, width, precision, argType);
      && ScanDirective(t) == Some((p, Conversion(Promoted(argType), letter)))
      && p.letterAt + 1 == |t|
      && t[p.widthAt..p.precisionAt] == width && t[p.precisionAt..p.sizeAt] == precision
  {
    hide FlagsText, SizeText, ScanParts, ConversionOf, IsWidthText, IsPrecisionText, IsConversion, DirectiveText, ScanDirective,
      PartsOf, Pieces.Before, Pieces.WellFormed, SizeValue;
    var g := PrintedIsGrammatical(flags, width, precision, argType, letter);
    PiecesScanned(g, "");
    PrintedPieces(g);
    ConversionIsRead(argType, letter);
    ScannedAs(g.Before(""), PartsOf(g), Conversion(Promoted(argType), letter));
  }

  /** The modifier that is printed is one that the standard defines for the conversion, and asks there for the type that is passed. */
  lemma PrintedModifier(c: char, flags: nat)
    requires ConversionOf(c, flags).Some? && ConversionOf(c, flags).value.letter !in ['n', '%']
    ensures
      var Conversion(argType, letter) := ConversionOf(c, flags).value;
      if letter == 'p' then SizeText(argType) == ""
      else KindOf(letter).Some? && StandardType(KindOf(letter).value, SizeText(argType)) == Some(Promoted(argType))
  {
    hide BitOf;
    match c
    case 'd' => case 'i' =>
    case 'o' => case 'u' => case 'x' => case 'X' =>
    case 'f' => case 'F' => case 'e' => case 'E' => case 'g' => case 'G' => case 'a' => case 'A' =>
    case 'c' => case 'C' => case 's' => case 'S' =>
    case 'p' =>
    case _ =>
  }

  // ---------- What a parsed directive provides ----------

  lemma ParsedFields(s: string, d: Directive)
    requires Faithful(s, d)
    ensures InText(s, d)
    ensures IsWidthText(s[d.widthStart..d.widthEnd]) && IsPrecisionText(s[d.precisionStart..d.precisionEnd])
  {
    hide ScanParts, ScanWidth, ScanPrecision, FlagOf, IsWidthText, IsPrecisionText, CharAt, ScanAt, IsField;
    FieldTexts(s, d);
    var r := s[d.dirStart + 1..];
    var p := ScanParts(r);
    PartsFound(r);
    NoFlagAfter(r);
    WidthText(r[p.widthAt..]);
    PrecisionText(r[p.precisionAt..]);
  }

  /** The texts of width and precision of a parsed directive are such that they can be printed. */
  lemma ParsedTexts(s: string, d: Directive, argType: ArgType)
    requires Faithful(s, d) && d.conversion !in ['n', '%'] && argType == ScanAt(s, d.dirStart).value.1.argType
    ensures InText(s, d) && IsConversion(argType, d.conversion)
    ensures IsWidthText(s[d.widthStart..d.widthEnd]) && IsPrecisionText(s[d.precisionStart..d.precisionEnd])
  {
    hide ScanParts, ConversionOf, IsWidthText, IsPrecisionText;
    var r := s[d.dirStart + 1..];
    var p := ScanParts(r);
    assert ConversionOf(CharAt(r, p.letterAt), p.sizeFlags) == Some(Conversion(argType, d.conversion));
    ParsedFields(s, d);
  }

  // ---------- Parsing what was printed ----------

  /** A state in which all arguments so far were taken in order, and few of them. */
  ghost predicate InOrder(st: State) {
    st.posn == |st.args.types| < 7 && st.args.capacity == 7
  }

  function Taken(argType: ArgType, st: State): State
    requires st.posn < SIZE_MAX
  {
    st.(args := Table(st.args.types + [argType], st.args.capacity), posn := st.posn + 1)
  }

  lemma RegisterNext(st: State, argType: ArgType)
    requires InOrder(st) && argType != TypeNone
    ensures Register(st.args, st.posn, argType) == Ok(Taken(argType, st).args)
  {
    var types := Extended(st.args.types, st.posn);
    assert types == st.args.types + [TypeNone];
    assert types[st.posn := argType] == st.args.types + [argType];
  }

  lemma StarTaken(f: Field, st: State)
    requires InOrder(st) && (f.Star? ==> f.position == NoPosition)
    ensures RegisterStar(f, st) == if f.Star? then Ok((st.posn, Taken(TypeInt, st))) else Ok((ARG_NONE, st))
  {
    RegisterNext(st, TypeInt);
  }

  /** A directive that takes its arguments one after the other: for a star in its width, for one in its precision, its own. */
  ghost predicate TakesInOrder(d: Directive, types: seq<ArgType>, width: bool, precision: bool, argType: ArgType) {
    && types == (if width then [TypeInt] else []) + (if precision then [TypeInt] else []) + [argType]
    && d.widthArg == (if width then 0 else ARG_NONE)
    && d.precisionArg == (if !precision then ARG_NONE else if width then 1 else 0)
    && d.arg == |types| - 1
  }

  /** A parse of a whole text as one directive with these parts, which takes its arguments in order. */
  ghost predicate ReadsAs(text: string, r: Parsed, flags: set<Flag>, width: string, precision: string, argType: ArgType, letter: char) {
    && |r.dirs| == 1
    && var d := r.dirs[0];
    && d.dirStart == 0 && d.dirEnd == |text| && InText(text, d)
    && d.flags == flags && d.conversion == letter
    && text[d.widthStart..d.widthEnd] == width && text[d.precisionStart..d.precisionEnd] == precision
    && TakesInOrder(d, r.st.args.types, width == "*", precision == ".*", argType)
  }

  /**
   The parse of the text printed for a directive. It gives back the one directive with its conversion and its type,
   except for the integer promotions; with all flags, or without the 0 flag if padding is done by the caller; and with width and
   precision as they stand in the format, or without what is done by the caller.
   */
  ghost predicate IsReprint(s: string, d: Directive, flags: set<Flag>, argType: ArgType, o: Ourselves, text: string, r: Parsed)
    requires InText(s, d)
  {
    ReadsAs(text, r, if o.pad then flags - {Zero} else flags,
            if o.pad then "" else s[d.widthStart..d.widthEnd], if o.precision then "" else s[d.precisionStart..d.precisionEnd],
            if argType in {TypeSChar, TypeShort} then TypeInt else if argType in {TypeUChar, TypeUShort} then TypeUInt else argType,
            d.conversion)
  }

  lemma OneDirective(text: string, p: Parts, c: Conversion)
    requires text != "" && text[0] == '%' && ScanDirective(text[1..]) == Some((p, c))
    requires p.position == NoPosition && p.letterAt + 2 == |text| && c.argType != TypeNone
    requires p.width.Star? ==> p.width.position == NoPosition
    requires p.precision.Star? ==> p.precision.position == NoPosition
    ensures
      && Parse(text).Ok?
      && var r := Parse(text).value;
      && |r.dirs| == 1
      && var d := r.dirs[0];
      && d == MakeDirective(0, p, d.widthArg, d.precisionArg, c.letter, d.arg)
      && TakesInOrder(d, r.st.args.types, p.width.Star?, p.precision.Star?, c.argType)
  {
    hide ScanParts, ConversionOf, Register, RegisterStar, Extended;
    var st1 := INITIAL_STATE.(maxWidth := Max(0, p.width.TextLength()));
    StarTaken(p.width, st1);
    var st2 := RegisterStar(p.width, st1).value.1;
    var st3 := st2.(maxPrecision := Max(st2.maxPrecision, p.precision.TextLength()));
    StarTaken(p.precision, st3);
    var st4 := RegisterStar(p.precision, st3).value.1;
    RegisterNext(st4, c.argType);
    var (d, st5) := ParseDirective(text, 0, INITIAL_STATE).value;
    assert st5.args.types == st4.args.types + [c.argType];
    assert ParseFrom(text, d.dirEnd, [d], 7, st5) == Ok(Parsed([d], st5));
    assert [] + [d] == [d];
    assert DirectivesGrown(1, 7) == Ok(7);
  }

  lemma EmptyTexts()
    ensures IsWidthText("") && IsPrecisionText("")
  {
  }

  lemma PromotedIsSome(argType: ArgType, letter: char)
    requires IsConversion(argType, letter)
    ensures Promoted(argType) != TypeNone
  {
  }

  /** What a printed text is parsed as. */
  lemma PrintedParses(flags: set<Flag>, width: string, precision: string, argType: ArgType, letter: char)
    requires IsWidthText(width) && IsPrecisionText(precision) && IsConversion(argType, letter)
    ensures
      var body := DirectiveText(flags, width, precision, argType, letter);
      var text, p := "%" + body, PrintedParts(flags, width, precision, argType);
      && Parse(text).Ok?
      && var r := Parse(text).value;
      && |r.dirs| == 1
      && var d := r.dirs[0];
      && d == MakeDirective(0, p, d.widthArg, d.precisionArg, letter, d.arg)
      && TakesInOrder(d, r.st.args.types, p.width.Star?, p.precision.Star?, Promoted(argType))
      && p.letterAt + 2 == |text|
      && text[1 + p.widthAt..1 + p.precisionAt] == width && text[1 + p.precisionAt..1 + p.sizeAt] == precision
  {
    hide Parse, ParseFrom, ScanDirective, FlagsText, SizeText, IsWidthText, IsPrecisionText, IsConversion, DirectiveText;
    TextRead(flags, width, precision, argType, letter);
    var body := DirectiveText(flags, width, precision, argType, letter);
    var text, p := "%" + body, PrintedParts(flags, width, precision, argType);
    assert text[1..] == body;
    PromotedIsSome(argType, letter);
    OneDirective(text, p, Conversion(Promoted(argType), letter));
    assert text[1 + p.widthAt..1 + p.precisionAt] == body[p.widthAt..p.precisionAt];
    assert text[1 + p.precisionAt..1 + p.sizeAt] == body[p.precisionAt..p.sizeAt];
  }

  lemma PrintedReadsAs(flags: set<Flag>, width: string, precision: string, argType: ArgType, letter: char)
    requires IsWidthText(width) && IsPrecisionText(precision) && IsConversion(argType, letter)
    ensures
      var text := "%" + DirectiveText(flags, width, precision, argType, letter);
      Parse(text).Ok? && ReadsAs(text, Parse(text).value, flags, width, precision, Promoted(argType), letter)
  {
    hide Parse, DirectiveText, IsWidthText, IsPrecisionText, IsConversion, FlagsText, SizeText, SizeValue, TakesInOrder, Promoted;
    PrintedParses(flags, width, precision, argType, letter);
  }

  /**
   Parsing undoes printing: the format built for a parsed directive is parsed as one directive with the same flags,
   the same texts of width and precision, the same conversion, and the same type of argument up to integer promotion.
   */
  lemma PrintThenParse(s: string, d: Directive, flags: set<Flag>, argType: ArgType, o: Ourselves)
    requires Faithful(s, d) && d.conversion !in ['n', '%'] && argType == ScanAt(s, d.dirStart).value.1.argType
    ensures InText(s, d)
    ensures
      var text := Printed(s, d, flags, argType, o);
      Parse(text).Ok? && IsReprint(s, d, flags, argType, o, text, Parse(text).value)
  {
    hide Parse, ParseFrom, DirectiveText, IsWidthText, IsPrecisionText, IsConversion, Faithful, ScanAt, FlagsText, SizeText,
      ReadsAs;
    ParsedTexts(s, d, argType);
    EmptyTexts();
    PrintedReadsAs(PrintedFlags(flags, o), PrintedWidth(s, d, o), PrintedPrecision(s, d, o), argType, d.conversion);
  }


  lemma PrintedFits(s: string, d: Directive, flags: set<Flag>, argType: ArgType, o: Ourselves, st: State)
    requires InText(s, d) && Fits(d, st)
    ensures |Printed(s, d, flags, argType, o)| + 1 <= st.maxWidth + st.maxPrecision + 12
  {
  }

  /**
   Every directive of a parsed format, except n and %, can be printed and parsed again; the format built for it, and its
   NUL, fit into the buffer, which has one cell more than needed.
   */
  lemma EveryDirectiveReprints(s: string, k: nat, o: Ourselves)
    requires Parse(s).Ok? && k < |Parse(s).value.dirs| && Parse(s).value.dirs[k].conversion !in ['n', '%']
    ensures
      var Parsed(dirs, st) := Parse(s).value;
      var d := dirs[k];
      && 0 <= d.arg < |st.args.types| && InText(s, d)
      && var argType := st.args.types[d.arg];
      && var text := Printed(s, d, d.flags, argType, o);
      && Parse(text).Ok? && IsReprint(s, d, d.flags, argType, o, text, Parse(text).value)
      && |text| + 1 < 7 + st.maxWidth + st.maxPrecision + 6
  {
    hide Parse, ParseFrom, ScanAt, IsReprint, Printed, Records, InText;
    ParseIsSound(s);
    var Parsed(dirs, st) := Parse(s).value;
    var d := dirs[k];
    assert Typed(ScanAt(s, d.dirStart), d, st.args.types);
    var argType := st.args.types[d.arg];
    PrintThenParse(s, d, d.flags, argType, o);
    PrintedFits(s, d, d.flags, argType, o, st);
  }
}
