/** What a successful parse guarantees about its directives, its argument table, and the format string. */
module ParserProperties {
  import opened Integers
  import opened Xsize
  import opened FormatSyntax
  import opened FormatGrammar
  import opened ParserSpec

  // ---------- The argument table ----------

  /** Types once registered stay. */
  ghost predicate Kept(types: seq<ArgType>, types': seq<ArgType>) {
    && |types| <= |types'|
    && forall i :: 0 <= i < |types| && types[i] != TypeNone ==> types'[i] == types[i]
  }

  ghost predicate HasType(types: seq<ArgType>, index: int, argType: ArgType) {
    0 <= index < |types| && types[index] == argType
  }

  /** What was not there before is among the indices registered now. */
  ghost predicate NewOnly(types: seq<ArgType>, types': seq<ArgType>, registered: set<int>) {
    forall i :: 0 <= i < |types'| && types'[i] != TypeNone ==> i in registered || HasType(types, i, types'[i])
  }

  lemma RegisterEffect(t: Table, index: Size, argType: ArgType)
    requires Register(t, index, argType).Ok?
    ensures
      var t' := Register(t, index, argType).value;
      && Kept(t.types, t'.types) && HasType(t'.types, index, argType)
      && NewOnly(t.types, t'.types, {index})
  {
  }

  lemma GrownExactly(capacity: Size, index: Size)
    ensures
      Grown(capacity, index) ==
      if index < capacity then capacity else Saturate(Max(2 * capacity, index + 1))
  {
    hide Xtimes, Xsum;
    SaturatedProduct(capacity, 2);
    SaturatedSum(index, 1);
  }

  lemma SaturatedRoom(room: nat, elsize: Size)
    requires elsize > 0
    ensures SizeOverflow(Xtimes(Saturate(room), elsize)) <==> room * elsize >= SIZE_MAX
  {
    hide Xtimes;
    SaturatedProduct(room, elsize);
  }

  /**
   Registering fails for a different type at the index, and for a table that is too large; otherwise
   the type stands at the index, and no other entry changes but those that are new.
   */
  lemma RegisterExactly(t: Table, index: Size, argType: ArgType)
    ensures
      var room := if index < t.capacity then t.capacity else Max(2 * t.capacity, index + 1);
      var tooLarge := index >= t.capacity && 32 * room >= SIZE_MAX;
      var clash := index < |t.types| && t.types[index] != TypeNone && t.types[index] != argType;
      match Register(t, index, argType)
      case OutOfMemory => tooLarge
      case Invalid => !tooLarge && clash
      case Ok(t') =>
        && !tooLarge && !clash && t'.capacity == room && |t'.types| == Max(|t.types|, index + 1)
        && forall i :: 0 <= i < |t'.types| ==>
             t'.types[i] == if i == index then argType else if i < |t.types| then t.types[i] else TypeNone
  {
    hide Xtimes, Grown;
    GrownExactly(t.capacity, index);
    if index >= t.capacity {
      SaturatedRoom(Max(2 * t.capacity, index + 1), ARGUMENT_SIZE);
    }
  }

  /** The directive table doubles exactly when it is full. */
  lemma DirectivesGrownExactly(count: nat, capacity: Size)
    ensures
      match DirectivesGrown(count, capacity)
      case Ok(room) => room == (if count < capacity then capacity else 2 * capacity) && (count < capacity || 176 * capacity < SIZE_MAX)
      case OutOfMemory => count >= capacity && 176 * capacity >= SIZE_MAX
      case Invalid => false
  {
    hide Xtimes;
    SaturatedProduct(capacity, 2);
    SaturatedRoom(2 * capacity, DIRECTIVE_SIZE);
  }

  /** A field refers to an argument exactly when it is a star; then the argument is an int. */
  ghost predicate FieldTyped(f: Field, index: Size, types: seq<ArgType>) {
    if f.Star? then index != ARG_NONE && HasType(types, index, TypeInt) else index == ARG_NONE
  }

  /** The indices among some that are there. */
  ghost function Present(indices: set<int>): set<int> {
    indices - {ARG_NONE}
  }

  lemma StarEffect(f: Field, st: State)
    requires RegisterStar(f, st).Ok?
    requires f.Star? && f.position.Position? ==> f.position.index != ARG_NONE
    ensures
      var (index, st') := RegisterStar(f, st).value;
      && (f.Star? ==> !f.position.BadPosition?)
      && FieldTyped(f, index, st'.args.types) && Kept(st.args.types, st'.args.types)
      && NewOnly(st.args.types, st'.args.types, Present({index}))
      && (|st.args.types| <= SIZE_MAX ==> |st'.args.types| <= SIZE_MAX)
      && st'.maxWidth == st.maxWidth && st'.maxPrecision == st.maxPrecision
  {
    if f.Star? {
      var index := if f.position.Position? then f.position.index else st.posn;
      RegisterEffect(st.args, index, TypeInt);
    }
  }

  lemma ConversionEffect(position: Positional, argType: ArgType, st: State)
    requires RegisterConversion(position, argType, st).Ok?
    requires position.Position? ==> position.index != ARG_NONE
    ensures
      var (index, st') := RegisterConversion(position, argType, st).value;
      && (index == ARG_NONE <==> argType == TypeNone)
      && (index != ARG_NONE ==> HasType(st'.args.types, index, argType))
      && Kept(st.args.types, st'.args.types)
      && NewOnly(st.args.types, st'.args.types, Present({index}))
      && (|st.args.types| <= SIZE_MAX ==> |st'.args.types| <= SIZE_MAX)
      && st'.maxWidth == st.maxWidth && st'.maxPrecision == st.maxPrecision
  {
    if argType != TypeNone {
      var index := if position.Position? then position.index else st.posn;
      RegisterEffect(st.args, index, argType);
    }
  }

  // ---------- One directive ----------

  /** What stands in the format at the place of a directive. */
  function ScanAt(s: string, start: nat): Option<(Parts, Conversion)> {
    if start < |s| && s[start] == '%' then ScanDirective(s[start + 1..]) else None
  }

  ghost predicate Records(scan: Option<(Parts, Conversion)>, d: Directive) {
    && scan.Some? && GoodPositions(scan.value.0)
    && d == MakeDirective(d.dirStart, scan.value.0, d.widthArg, d.precisionArg, scan.value.1.letter, d.arg)
  }

  /** A directive records what stands in the format at its place. */
  ghost predicate Faithful(s: string, d: Directive) {
    && d.dirStart < d.dirEnd <= |s|
    && Records(ScanAt(s, d.dirStart), d)
  }

  /** Its arguments are in the table, with the types that it needs; only %% takes none. */
  ghost predicate Typed(scan: Option<(Parts, Conversion)>, d: Directive, types: seq<ArgType>) {
    && scan.Some?
    && FieldTyped(scan.value.0.width, d.widthArg, types)
    && FieldTyped(scan.value.0.precision, d.precisionArg, types)
    && (d.arg == ARG_NONE <==> d.conversion == '%')
    && (d.arg != ARG_NONE ==> scan.value.1.argType != TypeNone && HasType(types, d.arg, scan.value.1.argType))
  }

  /** The arguments a directive refers to. */
  ghost function Uses(d: Directive): set<int> {
    Present({d.widthArg, d.precisionArg, d.arg})
  }

  /** The texts of width and precision lie in the format. */
  ghost predicate InText(s: string, d: Directive) {
    d.widthStart <= d.widthEnd <= |s| && d.precisionStart <= d.precisionEnd <= |s|
  }

  lemma StarWidthText(u: string)
    ensures ScanWidth(u).Star? <==> u[..ScanWidth(u).TextLength()] == "*"
  {
    if CharAt(u, 0) == '*' {
      assert u[..1] == "*";
    }
  }

  lemma StarPrecisionText(u: string)
    ensures ScanPrecision(u).Star? <==> u[..ScanPrecision(u).TextLength()] == ".*"
  {
    if CharAt(u, 0) == '.' && CharAt(u, 1) != '*' {
      var t := u[..ScanPrecision(u).TextLength()];
      assert |t| > 1 ==> t[1] == u[1..][0];
    }
  }

  lemma SliceOfSlice(s: string, at: nat, from: nat, n: nat)
    requires at + from + n <= |s|
    ensures s[at + from..at + from + n] == s[at..][from..][..n] && s[0..0] == s[at..][from..][..0]
  {
  }

  /** A field that starts at an offset in the text from a place on: where its text starts and ends. */
  lemma FieldSlice(s: string, at: nat, from: nat, f: Field)
    requires at + from + f.Extent() <= |s|
    ensures f.TextLength() <= f.Extent()
    ensures
      var start := if f.NoField? then 0 else at + from;
      var end := if f.NoField? then 0 else at + from + f.TextLength();
      start <= end <= |s| && s[start..end] == s[at..][from..][..f.TextLength()]
  {
    SliceOfSlice(s, at, from, f.TextLength());
  }

  /** What a directive records, in numbers. */
  lemma RecordedAt(s: string, d: Directive)
    requires Faithful(s, d)
    ensures d.dirStart < |s| && ScanAt(s, d.dirStart).Some?
    ensures
      var at, p := d.dirStart + 1, ScanAt(s, d.dirStart).value.0;
      && p == ScanParts(s[at..]) && d.flags == p.flags && d.dirEnd == at + p.letterAt + 1 <= |s|
      && d.widthStart == (if p.width.NoField? then 0 else at + p.widthAt)
      && d.widthEnd == (if p.width.NoField? then 0 else at + p.widthAt + p.width.TextLength())
      && d.precisionStart == (if p.precision.NoField? then 0 else at + p.precisionAt)
      && d.precisionEnd == (if p.precision.NoField? then 0 else at + p.precisionAt + p.precision.TextLength())
      && at + p.widthAt + p.width.Extent() <= |s| && at + p.precisionAt + p.precision.Extent() <= |s|
  {
    hide ScanParts, ConversionOf;
  }

  /** The texts of the fields, cut out of the format or of what follows the % sign. */
  lemma FieldTexts(s: string, d: Directive)
    requires Faithful(s, d)
    ensures InText(s, d) && d.dirStart < |s| && ScanAt(s, d.dirStart).Some?
    ensures
      var r, p := s[d.dirStart + 1..], ScanAt(s, d.dirStart).value.0;
      && p == ScanParts(r)
      && p.width.TextLength() <= p.width.Extent() && p.precision.TextLength() <= p.precision.Extent()
      && s[d.widthStart..d.widthEnd] == r[p.widthAt..][..p.width.TextLength()]
      && s[d.precisionStart..d.precisionEnd] == r[p.precisionAt..][..p.precision.TextLength()]
  {
    hide ScanParts, ScanAt, Records, Faithful;
    RecordedAt(s, d);
    var p := ScanAt(s, d.dirStart).value.0;
    FieldSlice(s, d.dirStart + 1, p.widthAt, p.width);
    FieldSlice(s, d.dirStart + 1, p.precisionAt, p.precision);
  }

  /** The text of a width or precision tells whether it is a star. */
  lemma StarsInText(s: string, d: Directive)
    requires Faithful(s, d)
    ensures InText(s, d)
    ensures
      var p := ScanAt(s, d.dirStart).value.0;
      && (s[d.widthStart..d.widthEnd] == "*" <==> p.width.Star?)
      && (s[d.precisionStart..d.precisionEnd] == ".*" <==> p.precision.Star?)
  {
    hide ScanParts, ScanWidth, ScanPrecision, ScanAt, Records;
    FieldTexts(s, d);
    var r := s[d.dirStart + 1..];
    var p := ScanParts(r);
    PartsFound(r);
    StarWidthText(r[p.widthAt..]);
    StarPrecisionText(r[p.precisionAt..]);
  }

  /** What the pieces of a text say about the directive that it is. */
  ghost predicate Describes(g: Pieces, d: Directive, argType: ArgType) {
    && (Group in d.flags <==> '\'' in g.flags) && (Left in d.flags <==> '-' in g.flags)
    && (ShowSign in d.flags <==> '+' in g.flags) && (Space in d.flags <==> ' ' in g.flags)
    && (Alt in d.flags <==> '#' in g.flags) && (Zero in d.flags <==> '0' in g.flags)
    && (Localized in d.flags <==> 'I' in g.flags)
    && d.conversion == AskedLetter(g.letter) && argType == AskedType(g.letter, g.modifiers)
  }

  lemma HeadOf(t: string, a: string, b: string, c: string)
    requires t == a + b + c
    ensures |a| <= |t| && t[..|a|] == a
  {
  }

  lemma FieldLengths(g: Pieces)
    requires g.WellFormed()
    ensures PartsOf(g).width.TextLength() == |g.width| && PartsOf(g).precision.TextLength() == |g.precision|
  {
    hide IsPosition, FlagsIn, SizeFlags, PositionOf, IsConversionLetter;
  }

  /** The texts of the fields are pieces. */
  lemma PiecesOfFields(g: Pieces, rest: string)
    requires g.WellFormed()
    ensures
      var r, p := g.Before(rest), PartsOf(g);
      && p.widthAt + p.width.TextLength() <= |r| && p.precisionAt + p.precision.TextLength() <= |r| && p.letterAt < |r|
      && r[p.widthAt..][..p.width.TextLength()] == g.width && r[p.precisionAt..][..p.precision.TextLength()] == g.precision
      && r[p.letterAt] == g.letter
  {
    hide FlagsIn, SizeFlags, WidthField, PrecisionField, PositionOf, Pieces.Before, Pieces.WellFormed, PartsOf;
    PiecesCut(g, rest);
    FieldLengths(g);
    var r, p := g.Before(rest), PartsOf(g);
    var z := g.modifiers + ([g.letter] + rest);
    HeadOf(r[p.widthAt..], g.width, g.widthPosition, g.precision + g.precisionPosition + z);
    HeadOf(r[p.precisionAt..], g.precision, g.precisionPosition, z);
  }

  lemma PiecesDescribe(g: Pieces, d: Directive, c: Conversion)
    requires g.WellFormed() && d.flags == FlagsIn(g.flags) && d.conversion == c.letter
    requires ConversionOf(g.letter, SizeFlags(g.modifiers, 0)) == Some(c)
    ensures Describes(g, d, c.argType)
  {
    hide ConversionOf, FlagsIn, SizeFlags, AskedType, IsPosition, IsWidthText, IsPrecisionText, IsConversionLetter;
    FlagsMean(g.flags);
    ModifiersMean(g.letter, g.modifiers);
  }

  lemma WholeDirective(s: string, start: nat, g: Pieces, rest: string, end: nat)
    requires start < |s| && s[start] == '%' && s[start + 1..] == g.Before(rest)
    requires start < end <= |s| && rest == s[end..]
    ensures s[start..end] == "%" + g.Before("")
  {
    hide Pieces.Before;
    BeforeAll(g, rest);
    assert s[start..end] == [s[start]] + s[start + 1..][..end - start - 1];
  }

  /** A parsed directive stands in the format as a text of the grammar, and is what the pieces of this text say. */
  lemma DirectiveIsGrammatical(s: string, d: Directive) returns (g: Pieces)
    requires Faithful(s, d)
    ensures g.WellFormed() && s[d.dirStart..d.dirEnd] == "%" + g.Before("")
    ensures InText(s, d) && s[d.widthStart..d.widthEnd] == g.width && s[d.precisionStart..d.precisionEnd] == g.precision
    ensures ScanAt(s, d.dirStart).Some? && PartsOf(g) == ScanAt(s, d.dirStart).value.0
    ensures Describes(g, d, ScanAt(s, d.dirStart).value.1.argType)
  {
    hide ScanParts, ConversionOf, FlagsIn, SizeFlags, Pieces.Before, Pieces.WellFormed, Describes, WidthField, PrecisionField;
    FieldTexts(s, d);
    var r := s[d.dirStart + 1..];
    var p := ScanParts(r);
    g := ScannedPieces(r);
    var rest := r[p.letterAt + 1..];
    PiecesOfFields(g, rest);
    PiecesDescribe(g, d, ScanAt(s, d.dirStart).value.1);
    assert rest == s[d.dirEnd..];
    WholeDirective(s, d.dirStart, g, rest, d.dirEnd);
  }

  /** The directives that are scanned at a % sign are those of the grammar: no other text is, and each of these is. */
  lemma DirectivesAreThese(s: string, start: nat)
    requires start < |s| && s[start] == '%'
    ensures
      (ScanAt(s, start).Some? && GoodPositions(ScanAt(s, start).value.0)) <==>
      exists g: Pieces :: g.WellFormed() && g.Before("") <= s[start + 1..]
  {
    hide ScanParts, ConversionOf, FlagsIn, SizeFlags, Pieces.Before, Pieces.WellFormed, PartsOf, GoodPositions;
    var r := s[start + 1..];
    if ScanAt(s, start).Some? && GoodPositions(ScanAt(s, start).value.0) {
      var g := ScannedPieces(r);
      BeforeAll(g, r[ScanParts(r).letterAt + 1..]);
      assert g.Before("") <= r;
    }
    forall g: Pieces | g.WellFormed() && g.Before("") <= r
      ensures ScanAt(s, start).Some? && GoodPositions(ScanAt(s, start).value.0)
    {
      var rest := r[|g.Before("")|..];
      BeforeAll(g, rest);
      assert r == g.Before(rest);
      PiecesScanned(g, rest);
      LetterScanned(g);
    }
  }

  ghost predicate Fits(d: Directive, st: State) {
    d.widthEnd - d.widthStart <= st.maxWidth && d.precisionEnd - d.precisionStart <= st.maxPrecision
  }

  lemma OnlyPercentTakesNothing(c: char, flags: nat)
    requires ConversionOf(c, flags).Some?
    ensures ConversionOf(c, flags).value.argType == TypeNone <==> ConversionOf(c, flags).value.letter == '%'
  {
  }

  lemma DirectiveEffect(s: string, start: nat, st: State)
    requires start < |s| && s[start] == '%' && ParseDirective(s, start, st).Ok?
    ensures
      var (d, st') := ParseDirective(s, start, st).value;
      && Faithful(s, d) && Typed(ScanAt(s, d.dirStart), d, st'.args.types) && Fits(d, st')
      && Kept(st.args.types, st'.args.types)
      && NewOnly(st.args.types, st'.args.types, Uses(d))
      && (|st.args.types| <= SIZE_MAX ==> |st'.args.types| <= SIZE_MAX)
      && st.maxWidth <= st'.maxWidth && st.maxPrecision <= st'.maxPrecision
  {
    hide ScanParts, ConversionOf, RegisterStar, RegisterConversion;
    var (p, c) := ScanDirective(s[start + 1..]).value;
    var st1 := st.(maxWidth := Max(st.maxWidth, p.width.TextLength()));
    StarEffect(p.width, st1);
    var (widthArg, st2) := RegisterStar(p.width, st1).value;
    var st3 := st2.(maxPrecision := Max(st2.maxPrecision, p.precision.TextLength()));
    StarEffect(p.precision, st3);
    var (precisionArg, st4) := RegisterStar(p.precision, st3).value;
    ConversionEffect(p.position, c.argType, st4);
    OnlyPercentTakesNothing(CharAt(s[start + 1..], p.letterAt), p.sizeFlags);
  }

  // ---------- The whole format ----------

  /** Where the k-th gap starts. */
  function GapStart(dirs: seq<Directive>, k: nat): nat
    requires k <= |dirs|
  {
    if k == 0 then 0 else dirs[k - 1].dirEnd
  }

  ghost predicate NoPercent(s: string, lo: nat, hi: nat) {
    lo <= hi <= |s| && forall i :: lo <= i < hi ==> s[i] != '%'
  }

  /** The directives follow one another; what lies between them, and up to i, holds no % sign. */
  ghost predicate Segmented(s: string, i: nat, dirs: seq<Directive>) {
    && (forall k :: 0 <= k < |dirs| ==> Faithful(s, dirs[k]) && NoPercent(s, GapStart(dirs, k), dirs[k].dirStart))
    && NoPercent(s, GapStart(dirs, |dirs|), i)
  }

  /** Every directive finds its arguments, and every argument with a type is used by a directive. */
  ghost predicate TableMatches(s: string, dirs: seq<Directive>, st: State) {
    && (forall k :: 0 <= k < |dirs| ==>
          Typed(ScanAt(s, dirs[k].dirStart), dirs[k], st.args.types) && Fits(dirs[k], st))
    && (forall i :: 0 <= i < |st.args.types| && st.args.types[i] != TypeNone ==>
          exists k :: 0 <= k < |dirs| && i in Uses(dirs[k]))
  }

  lemma GapGrows(s: string, i: nat, dirs: seq<Directive>)
    requires i < |s| && s[i] != '%' && Segmented(s, i, dirs)
    ensures Segmented(s, i + 1, dirs)
  {
    hide Faithful, GapStart;
  }

  lemma EmptyGap(s: string, i: nat)
    requires i <= |s|
    ensures NoPercent(s, i, i)
  {
  }

  lemma SegmentAppended(s: string, i: nat, dirs: seq<Directive>, d: Directive)
    requires i < |s| && Segmented(s, i, dirs) && d.dirStart == i && Faithful(s, d)
    ensures Segmented(s, d.dirEnd, dirs + [d])
  {
    hide ScanAt, Records, MakeDirective, NoPercent;
    var ds := dirs + [d];
    forall k | 0 <= k < |ds|
      ensures Faithful(s, ds[k]) && NoPercent(s, GapStart(ds, k), ds[k].dirStart)
    {
      assert GapStart(ds, k) == GapStart(dirs, k);
      if k < |dirs| {
        assert ds[k] == dirs[k];
      } else {
        assert ds[k] == d;
      }
    }
    EmptyGap(s, d.dirEnd);
  }

  lemma TypedStays(scan: Option<(Parts, Conversion)>, d: Directive, types: seq<ArgType>, types': seq<ArgType>)
    requires Typed(scan, d, types) && Kept(types, types')
    ensures Typed(scan, d, types')
  {
  }

  lemma UsesAppended(dirs: seq<Directive>, d: Directive, types: seq<ArgType>, types': seq<ArgType>)
    requires NewOnly(types, types', Uses(d))
    requires forall i :: 0 <= i < |types| && types[i] != TypeNone ==> exists k :: 0 <= k < |dirs| && i in Uses(dirs[k])
    ensures
      forall i :: 0 <= i < |types'| && types'[i] != TypeNone ==>
        exists k :: 0 <= k < |dirs + [d]| && i in Uses((dirs + [d])[k])
  {
    var ds := dirs + [d];
    forall j | 0 <= j < |types'| && types'[j] != TypeNone
      ensures exists k :: 0 <= k < |ds| && j in Uses(ds[k])
    {
      if j in Uses(d) {
        assert ds[|dirs|] == d;
      } else {
        var k :| 0 <= k < |dirs| && j in Uses(dirs[k]);
        assert ds[k] == dirs[k];
      }
    }
  }

  lemma DirectiveAppended(s: string, i: nat, dirs: seq<Directive>, st: State, d: Directive, st': State)
    requires i < |s| && Segmented(s, i, dirs) && TableMatches(s, dirs, st)
    requires d.dirStart == i && Faithful(s, d) && Typed(ScanAt(s, d.dirStart), d, st'.args.types) && Fits(d, st')
    requires Kept(st.args.types, st'.args.types) && NewOnly(st.args.types, st'.args.types, Uses(d))
    requires st.maxWidth <= st'.maxWidth && st.maxPrecision <= st'.maxPrecision
    ensures Segmented(s, d.dirEnd, dirs + [d]) && TableMatches(s, dirs + [d], st')
  {
    hide ScanAt, Records, MakeDirective;
    SegmentAppended(s, i, dirs, d);
    forall k | 0 <= k < |dirs + [d]|
      ensures Typed(ScanAt(s, (dirs + [d])[k].dirStart), (dirs + [d])[k], st'.args.types) && Fits((dirs + [d])[k], st')
    {
      if k < |dirs| {
        TypedStays(ScanAt(s, dirs[k].dirStart), dirs[k], st.args.types, st'.args.types);
      }
    }
    UsesAppended(dirs, d, st.args.types, st'.args.types);
  }

  lemma ParseFromKeeps(s: string, i: nat, dirs: seq<Directive>, capacity: Size, st: State)
    requires i <= |s| && Segmented(s, i, dirs) && TableMatches(s, dirs, st)
    requires ParseFrom(s, i, dirs, capacity, st).Ok?
    ensures
      var r := ParseFrom(s, i, dirs, capacity, st).value;
      Segmented(s, |s|, r.dirs) && TableMatches(s, r.dirs, r.st)
    decreases |s| - i
  {
    hide ScanAt, MakeDirective, ParseDirective, Segmented, TableMatches, Faithful, Typed;
    if i == |s| {
    } else if s[i] != '%' {
      GapGrows(s, i, dirs);
      ParseFromKeeps(s, i + 1, dirs, capacity, st);
    } else {
      DirectiveEffect(s, i, st);
      var (d, st') := ParseDirective(s, i, st).value;
      DirectiveAppended(s, i, dirs, st, d, st');
      ParseFromKeeps(s, d.dirEnd, dirs + [d], DirectivesGrown(|dirs| + 1, capacity).value, st');
    }
  }

  /** A successful parse cuts the format into directives and gaps, and its argument table fits them. */
  lemma ParseIsSound(s: string)
    requires Parse(s).Ok?
    ensures
      var r := Parse(s).value;
      Segmented(s, |s|, r.dirs) && TableMatches(s, r.dirs, r.st)
  {
    ParseFromKeeps(s, 0, [], 7, INITIAL_STATE);
  }

  /** The length of the longest width text, and of the longest precision text. */
  function LongestWidth(dirs: seq<Directive>): int {
    if dirs == [] then 0
    else
      var d, before := dirs[|dirs| - 1], LongestWidth(dirs[..|dirs| - 1]);
      if d.widthEnd - d.widthStart > before then d.widthEnd - d.widthStart else before
  }

  function LongestPrecision(dirs: seq<Directive>): int {
    if dirs == [] then 0
    else
      var d, before := dirs[|dirs| - 1], LongestPrecision(dirs[..|dirs| - 1]);
      if d.precisionEnd - d.precisionStart > before then d.precisionEnd - d.precisionStart else before
  }

  lemma DirectiveMaxima(s: string, start: nat, st: State)
    requires start < |s| && ParseDirective(s, start, st).Ok?
    ensures
      var (d, st') := ParseDirective(s, start, st).value;
      && d.widthStart <= d.widthEnd <= |s| && d.precisionStart <= d.precisionEnd <= |s|
      && st'.maxWidth == Max(st.maxWidth, d.widthEnd - d.widthStart)
      && st'.maxPrecision == Max(st.maxPrecision, d.precisionEnd - d.precisionStart)
  {
    hide ScanParts, ConversionOf, Register;
    var p := ScanParts(s[start + 1..]);
    assert p.width.TextLength() <= p.width.Extent() && p.precision.TextLength() <= p.precision.Extent();
  }

  /** No width and no precision is longer than the format. */
  ghost predicate MaximaFit(s: string, st: State) {
    st.maxWidth <= |s| && st.maxPrecision <= |s|
  }

  lemma {:induction false} ParseFromMaxima(s: string, i: nat, dirs: seq<Directive>, capacity: Size, st: State)
    requires i <= |s| && MaximaFit(s, st) && ParseFrom(s, i, dirs, capacity, st).Ok?
    requires st.maxWidth == LongestWidth(dirs) && st.maxPrecision == LongestPrecision(dirs)
    ensures
      var r := ParseFrom(s, i, dirs, capacity, st).value;
      MaximaFit(s, r.st) && r.st.maxWidth == LongestWidth(r.dirs) && r.st.maxPrecision == LongestPrecision(r.dirs)
    decreases |s| - i
  {
    hide ParseDirective;
    if i == |s| {
    } else if s[i] != '%' {
      ParseFromMaxima(s, i + 1, dirs, capacity, st);
    } else {
      DirectiveMaxima(s, i, st);
      var (d, st') := ParseDirective(s, i, st).value;
      assert (dirs + [d])[..|dirs|] == dirs;
      ParseFromMaxima(s, d.dirEnd, dirs + [d], DirectivesGrown(|dirs| + 1, capacity).value, st');
    }
  }

  /** The maxima are the lengths of the longest texts, and these are no longer than the format. */
  lemma ParseMaxima(s: string)
    requires Parse(s).Ok?
    ensures
      var Parsed(dirs, st) := Parse(s).value;
      MaximaFit(s, st) && st.maxWidth == LongestWidth(dirs) && st.maxPrecision == LongestPrecision(dirs)
  {
    hide ParseFrom;
    ParseFromMaxima(s, 0, [], 7, INITIAL_STATE);
  }

  /** Every directive of a parsed format is a text of the grammar, and its pieces say what it does and which argument it asks for. */
  lemma EveryDirectiveIsGrammatical(s: string, k: nat) returns (g: Pieces)
    requires Parse(s).Ok? && k < |Parse(s).value.dirs|
    ensures
      var Parsed(dirs, st) := Parse(s).value;
      var d := dirs[k];
      && g.WellFormed() && d.dirStart < d.dirEnd <= |s| && s[d.dirStart..d.dirEnd] == "%" + g.Before("")
      && InText(s, d) && s[d.widthStart..d.widthEnd] == g.width && s[d.precisionStart..d.precisionEnd] == g.precision
      && (d.arg == ARG_NONE || d.arg < |st.args.types|)
      && Describes(g, d, if d.arg == ARG_NONE then TypeNone else st.args.types[d.arg])
  {
    hide Parse, ScanAt, Records, Pieces.Before, Pieces.WellFormed, InText, AskedType, Occurrences;
    ParseIsSound(s);
    var Parsed(dirs, st) := Parse(s).value;
    var d := dirs[k];
    g := DirectiveIsGrammatical(s, d);
    assert Typed(ScanAt(s, d.dirStart), d, st.args.types);
    LetterTakes(g.letter, g.modifiers);
  }

  ghost predicate Ordered(s: string, dirs: seq<Directive>) {
    forall j :: 0 <= j < |dirs| ==> GapStart(dirs, j) <= dirs[j].dirStart <= dirs[j].dirEnd <= |s|
  }

  /** The gaps and the texts of the first k directives, in order. */
  ghost function Rebuilt(s: string, dirs: seq<Directive>, k: nat): string
    requires k <= |dirs| && Ordered(s, dirs)
  {
    if k == 0 then ""
    else
      var d := dirs[k - 1];
      Rebuilt(s, dirs, k - 1) + s[GapStart(dirs, k - 1)..d.dirStart] + s[d.dirStart..d.dirEnd]
  }

  lemma {:induction false} RebuiltPrefix(s: string, dirs: seq<Directive>, k: nat)
    requires k <= |dirs| && Ordered(s, dirs)
    ensures GapStart(dirs, k) <= |s| && Rebuilt(s, dirs, k) == s[..GapStart(dirs, k)]
  {
    if k == 0 {
    } else {
      RebuiltPrefix(s, dirs, k - 1);
      var d := dirs[k - 1];
      assert s[..d.dirEnd] == s[..GapStart(dirs, k - 1)] + s[GapStart(dirs, k - 1)..d.dirStart] + s[d.dirStart..d.dirEnd];
    }
  }

  lemma SegmentedIsOrdered(s: string, i: nat, dirs: seq<Directive>)
    requires Segmented(s, i, dirs)
    ensures Ordered(s, dirs)
  {
    hide ScanAt, Records, MakeDirective;
  }

  /** Gaps and directive texts together are the whole format. */
  lemma ParseLosesNothing(s: string)
    requires Parse(s).Ok?
    ensures
      var dirs := Parse(s).value.dirs;
      && Ordered(s, dirs)
      && Rebuilt(s, dirs, |dirs|) + s[GapStart(dirs, |dirs|)..] == s
  {
    hide ScanAt, Records, MakeDirective, ParseFrom;
    ParseIsSound(s);
    var dirs := Parse(s).value.dirs;
    SegmentedIsOrdered(s, |s|, dirs);
    RebuiltPrefix(s, dirs, |dirs|);
  }

  // ---------- The types of the standard ----------

  datatype Kind = SignedKind | UnsignedKind | FloatingKind | CharacterKind | TextKind | CountKind

  function KindOf(letter: char): Option<Kind> {
    if letter in {'d', 'i'} then Some(SignedKind)
    else if letter in {'o', 'u', 'x', 'X'} then Some(UnsignedKind)
    else if letter in {'a', 'A', 'e', 'E', 'f', 'F', 'g', 'G'} then Some(FloatingKind)
    else if letter == 'c' then Some(CharacterKind)
    else if letter == 's' then Some(TextKind)
    else if letter == 'n' then Some(CountKind)
    else None
  }

  /** The argument that a length modifier asks for, by kind of conversion; intmax_t, size_t and ptrdiff_t are as wide as long. */
  function StandardType(kind: Kind, modifier: string): Option<ArgType> {
    var long := modifier == "l" || modifier == "j" || modifier == "z" || modifier == "t";
    match kind
    case SignedKind =>
      if modifier == "hh" then Some(TypeSChar) else if modifier == "h" then Some(TypeShort)
      else if modifier == "" then Some(TypeInt) else if long then Some(TypeLongInt)
      else if modifier == "ll" then Some(TypeLongLongInt) else None
    case UnsignedKind =>
      if modifier == "hh" then Some(TypeUChar) else if modifier == "h" then Some(TypeUShort)
      else if modifier == "" then Some(TypeUInt) else if long then Some(TypeULongInt)
      else if modifier == "ll" then Some(TypeULongLongInt) else None
    case FloatingKind =>
      if modifier == "" || modifier == "l" then Some(TypeDouble) else if modifier == "L" then Some(TypeLongDouble) else None
    case CharacterKind =>
      if modifier == "" then Some(TypeChar) else if modifier == "l" then Some(TypeWideChar) else None
    case TextKind =>
      if modifier == "" then Some(TypeString) else if modifier == "l" then Some(TypeWideString) else None
    case CountKind =>
      if modifier == "hh" then Some(TypeCountSChar) else if modifier == "h" then Some(TypeCountShort)
      else if modifier == "" then Some(TypeCountInt) else if long then Some(TypeCountLongInt)
      else if modifier == "ll" then Some(TypeCountLongLongInt) else None
  }

  lemma ModifierFlags(modifier: string)
    requires modifier in ["", "h", "hh", "l", "ll", "j", "z", "t", "L"]
    ensures
      SizeFlags(modifier, 0) ==
      if modifier == "" then 0 else if modifier == "h" then 1 else if modifier == "hh" then 3
      else if modifier == "L" then 4 else if modifier == "ll" then 16 else 8
  {
    if modifier != "" {
      var rest := modifier[1..];
      var flags := SizeStep(modifier[0], 0).value;
      assert SizeFlags(modifier, 0) == SizeFlags(rest, flags);
      if rest != "" {
        assert rest[1..] == "" && SizeFlags(rest, flags) == SizeFlags("", SizeStep(rest[0], flags).value);
      }
    }
  }

  /** Each length modifier, before each conversion for which the standard defines it, asks for the type the standard says. */
  lemma ModifiersFollowStandard(letter: char, modifier: string)
    requires KindOf(letter).Some? && StandardType(KindOf(letter).value, modifier).Some?
    ensures
      ConversionOf(letter, SizeFlags(modifier, 0)) ==
      Some(Conversion(StandardType(KindOf(letter).value, modifier).value, letter))
  {
    hide SizeFlags;
    ModifierFlags(modifier);
  }
}
