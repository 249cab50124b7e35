/** Which argument each part of a directive takes, told from the format alone. */
module ArgumentOrder {
  import opened Integers
  import opened Xsize
  import opened Digits
  import opened FormatSyntax
  import opened FormatGrammar
  import opened ParserSpec
  import opened ParserProperties

  /** The n of a position n$ that stands at a place in the format, if one does. */
  function PositionAt(s: string, i: nat): Option<nat> {
    if i > |s| then None
    else
      var n := DigitRun(s[i..]);
      if n > 0 && CharAt(s, i + n) == '$' then Some(NumberOf(s[i..][..n])) else None
  }

  /** A part of a directive that takes an argument: the position written for it, if there is one, and the index it takes. */
  datatype Reference = Reference(position: Option<nat>, index: Size)

  /** The references of a directive: those of the stars in its width and its precision, and its own. */
  function References(s: string, d: Directive): seq<Reference>
    requires InText(s, d)
  {
    (if s[d.widthStart..d.widthEnd] == "*" then [Reference(PositionAt(s, d.widthEnd), d.widthArg)] else [])
    + (if s[d.precisionStart..d.precisionEnd] == ".*" then [Reference(PositionAt(s, d.precisionEnd), d.precisionArg)] else [])
    + (if d.conversion != '%' then [Reference(PositionAt(s, d.dirStart + 1), d.arg)] else [])
  }

  ghost predicate AllInText(s: string, dirs: seq<Directive>) {
    forall k :: 0 <= k < |dirs| ==> InText(s, dirs[k])
  }

  /** The references of all directives in order. */
  function AllReferences(s: string, dirs: seq<Directive>): seq<Reference>
    requires AllInText(s, dirs)
  {
    if dirs == [] then []
    else AllReferences(s, dirs[..|dirs| - 1]) + References(s, dirs[|dirs| - 1])
  }

  /** How many references are without a position. */
  function Free(references: seq<Reference>): nat {
    if references == [] then 0
    else Free(references[..|references| - 1]) + if references[|references| - 1].position.None? then 1 else 0
  }

  /** A reference with a position n$ takes argument n, counted from one; the others take one argument after the other, from n on. */
  ghost predicate InOrder(references: seq<Reference>, n: nat) {
    forall j :: 0 <= j < |references| ==>
      references[j].index ==
      match references[j].position
      case Some(m) => m - 1
      case None => n + Free(references[..j])
  }

  /** A directive has an index exactly for each star and for a conversion other than %%. */
  ghost predicate ArgsArePresent(s: string, d: Directive)
    requires InText(s, d)
  {
    && (d.widthArg != ARG_NONE <==> s[d.widthStart..d.widthEnd] == "*")
    && (d.precisionArg != ARG_NONE <==> s[d.precisionStart..d.precisionEnd] == ".*")
    && (d.arg != ARG_NONE <==> d.conversion != '%')
  }

  // ---------- One reference ----------

  lemma PositionIsScanned(s: string, i: nat)
    requires i <= |s| && !ScanPosition(s[i..]).BadPosition?
    ensures
      match ScanPosition(s[i..])
      case Position(index, _) => PositionAt(s, i) == Some(index + 1)
      case NoPosition => PositionAt(s, i) == None
      case BadPosition => true
  {
    hide NumberOf;
    var n := DigitRun(s[i..]);
    assert CharAt(s, i + n) == CharAt(s[i..], n);
  }

  lemma StarIndex(f: Field, st: State)
    requires RegisterStar(f, st).Ok?
    ensures f.Star? ==> !f.position.BadPosition?
    ensures
      var (index, st') := RegisterStar(f, st).value;
      match f
      case Star(_, Position(i, _)) => index == i && st'.posn == st.posn
      case Star(_, NoPosition) => index == st.posn && st'.posn == st.posn + 1
      case _ => index == ARG_NONE && st'.posn == st.posn
  {
    hide Register;
  }

  lemma ConversionIndex(position: Positional, argType: ArgType, st: State)
    requires RegisterConversion(position, argType, st).Ok?
    ensures
      var (index, st') := RegisterConversion(position, argType, st).value;
      if argType == TypeNone then index == ARG_NONE && st'.posn == st.posn
      else if position.Position? then index == position.index && st'.posn == st.posn
      else index == st.posn && st'.posn == st.posn + 1
  {
    hide Register;
  }

  lemma {:induction false} FreeJoin(a: seq<Reference>, b: seq<Reference>)
    ensures Free(a + b) == Free(a) + Free(b)
  {
    if b == [] {
      assert a + b == a;
    } else {
      FreeJoin(a, b[..|b| - 1]);
      assert (a + b)[..|a + b| - 1] == a + b[..|b| - 1];
    }
  }

  lemma InOrderJoin(a: seq<Reference>, b: seq<Reference>, n: nat)
    requires InOrder(a, n) && InOrder(b, n + Free(a))
    ensures InOrder(a + b, n)
  {
    hide Free;
    forall j | 0 <= j < |a + b|
      ensures
        (a + b)[j].index ==
        match (a + b)[j].position
        case Some(m) => m - 1
        case None => n + Free((a + b)[..j])
    {
      if j < |a| {
        assert (a + b)[..j] == a[..j];
      } else {
        assert (a + b)[..j] == a + b[..j - |a|];
        FreeJoin(a, b[..j - |a|]);
      }
    }
  }

  // ---------- One directive ----------

  lemma StarPositions(u: string)
    ensures ScanWidth(u).Star? ==> u != "" && ScanWidth(u) == Star(1, ScanPosition(u[1..]))
    ensures ScanPrecision(u).Star? ==> |u| > 1 && ScanPrecision(u) == Star(2, ScanPosition(u[2..]))
  {
    hide ScanPosition;
  }

  lemma RestOfRest(s: string, at: nat, from: nat, n: nat)
    requires at + from + n <= |s|
    ensures s[at..][from..][n..] == s[at + from + n..]
  {
  }

  lemma FieldsFound(r: string)
    ensures
      var p := ScanParts(r);
      && p.position == ScanPosition(r) && p.width == ScanWidth(r[p.widthAt..]) && p.precision == ScanPrecision(r[p.precisionAt..])
  {
    hide ScanParts, ScanPosition, ScanWidth, ScanPrecision;
    PartsFound(r);
  }

  lemma PositionsOfFields(s: string, d: Directive)
    requires Faithful(s, d)
    ensures d.dirStart < |s| && ScanAt(s, d.dirStart).Some?
    ensures
      var p := ScanAt(s, d.dirStart).value.0;
      && p.position == ScanPosition(s[d.dirStart + 1..])
      && (p.width.Star? ==> d.widthEnd <= |s| && p.width.position == ScanPosition(s[d.widthEnd..]))
      && (p.precision.Star? ==> d.precisionEnd <= |s| && p.precision.position == ScanPosition(s[d.precisionEnd..]))
  {
    hide ScanParts, ScanPosition, ScanAt, Records, Faithful, ScanWidth, ScanPrecision;
    RecordedAt(s, d);
    var at := d.dirStart + 1;
    var p := ScanParts(s[at..]);
    FieldsFound(s[at..]);
    if p.width.Star? {
      StarPositions(s[at..][p.widthAt..]);
      RestOfRest(s, at, p.widthAt, 1);
    }
    if p.precision.Star? {
      StarPositions(s[at..][p.precisionAt..]);
      RestOfRest(s, at, p.precisionAt, 2);
    }
  }

  /** The reference of one part, and the index that the next one without a position takes. */
  ghost predicate Takes(references: seq<Reference>, n: nat, next: nat) {
    InOrder(references, n) && next == n + Free(references)
  }

  lemma TakesNothing(n: nat)
    ensures Takes([], n, n)
  {
  }

  lemma TakesOne(s: string, i: nat, index: Size, n: nat, next: nat)
    requires i <= |s| && !ScanPosition(s[i..]).BadPosition?
    requires
      match ScanPosition(s[i..])
      case Position(m, _) => index == m && next == n
      case _ => index == n && next == n + 1
    ensures Takes([Reference(PositionAt(s, i), index)], n, next)
  {
    hide ScanPosition, PositionAt;
    PositionIsScanned(s, i);
    var r := Reference(PositionAt(s, i), index);
    assert [r][..0] == [] && Free([]) == 0 && Free([r]) == Free([r][..0]) + if r.position.None? then 1 else 0;
  }

  lemma TakesJoin(a: seq<Reference>, b: seq<Reference>, n: nat, m: nat, next: nat)
    requires Takes(a, n, m) && Takes(b, m, next)
    ensures Takes(a + b, n, next)
  {
    hide InOrder;
    InOrderJoin(a, b, n);
    FreeJoin(a, b);
  }

  /** How one part moves the counter of arguments: an absent part has no index. */
  ghost predicate Counts(there: bool, position: Positional, index: Size, n: nat, next: nat) {
    if !there then index == ARG_NONE && next == n
    else
      match position
      case Position(m, _) => index == m && next == n
      case NoPosition => index == n && next == n + 1
      case BadPosition => false
  }

  lemma PartTakes(s: string, there: bool, i: nat, index: Size, n: nat, next: nat)
    requires there ==> i <= |s| && Counts(there, ScanPosition(s[i..]), index, n, next)
    requires !there ==> next == n
    ensures Takes(if there then [Reference(PositionAt(s, i), index)] else [], n, next)
  {
    hide Takes, ScanPosition, PositionAt;
    if there {
      TakesOne(s, i, index, n, next);
    } else {
      TakesNothing(n);
    }
  }

  function PositionOfStar(f: Field): Positional {
    if f.Star? then f.position else NoPosition
  }

  lemma PartsCount(s: string, start: nat, st: State) returns (n: nat, m: nat)
    requires start < |s| && s[start] == '%' && ParseDirective(s, start, st).Ok?
    ensures
      var (d, st') := ParseDirective(s, start, st).value;
      && ScanAt(s, d.dirStart).Some?
      && var p := ScanAt(s, d.dirStart).value.0;
      && Counts(p.width.Star?, PositionOfStar(p.width), d.widthArg, st.posn, n)
      && Counts(p.precision.Star?, PositionOfStar(p.precision), d.precisionArg, n, m)
      && Counts(d.conversion != '%', p.position, d.arg, m, st'.posn)
  {
    hide ScanParts, ConversionOf, RegisterStar, RegisterConversion;
    var (p, c) := ScanDirective(s[start + 1..]).value;
    var st1 := st.(maxWidth := Max(st.maxWidth, p.width.TextLength()));
    StarIndex(p.width, st1);
    var st2 := RegisterStar(p.width, st1).value.1;
    var st3 := st2.(maxPrecision := Max(st2.maxPrecision, p.precision.TextLength()));
    StarIndex(p.precision, st3);
    var st4 := RegisterStar(p.precision, st3).value.1;
    ConversionIndex(p.position, c.argType, st4);
    OnlyPercentTakesNothing(CharAt(s[start + 1..], p.letterAt), p.sizeFlags);
    n, m := st2.posn, st4.posn;
  }

  /** A directive takes its arguments in order, from the counter on. */
  lemma DirectiveTakes(s: string, start: nat, st: State)
    requires start < |s| && s[start] == '%' && ParseDirective(s, start, st).Ok?
    ensures
      var (d, st') := ParseDirective(s, start, st).value;
      InText(s, d) && Takes(References(s, d), st.posn, st'.posn) && ArgsArePresent(s, d)
  {
    hide ParseDirective, ScanAt, Takes, ScanPosition, PositionAt, Typed, Faithful, Records;
    DirectiveEffect(s, start, st);
    var (d, st') := ParseDirective(s, start, st).value;
    var n, m := PartsCount(s, start, st);
    var p := ScanAt(s, start).value.0;
    StarsInText(s, d);
    PositionsOfFields(s, d);
    var w, q := s[d.widthStart..d.widthEnd] == "*", s[d.precisionStart..d.precisionEnd] == ".*";
    PartTakes(s, w, d.widthEnd, d.widthArg, st.posn, n);
    PartTakes(s, q, d.precisionEnd, d.precisionArg, n, m);
    PartTakes(s, d.conversion != '%', d.dirStart + 1, d.arg, m, st'.posn);
    var a := if w then [Reference(PositionAt(s, d.widthEnd), d.widthArg)] else [];
    var b := if q then [Reference(PositionAt(s, d.precisionEnd), d.precisionArg)] else [];
    var c := if d.conversion != '%' then [Reference(PositionAt(s, d.dirStart + 1), d.arg)] else [];
    TakesJoin(a, b, st.posn, n, m);
    TakesJoin(a + b, c, st.posn, m, st'.posn);
    assert References(s, d) == a + b + c;
  }

  // ---------- The whole format ----------

  lemma {:induction false} ParseFromTakes(s: string, i: nat, dirs: seq<Directive>, capacity: Size, st: State)
    requires i <= |s| && ParseFrom(s, i, dirs, capacity, st).Ok?
    requires AllInText(s, dirs) && Takes(AllReferences(s, dirs), 0, st.posn)
    requires forall k :: 0 <= k < |dirs| ==> ArgsArePresent(s, dirs[k])
    ensures
      var r := ParseFrom(s, i, dirs, capacity, st).value;
      && AllInText(s, r.dirs) && Takes(AllReferences(s, r.dirs), 0, r.st.posn)
      && forall k :: 0 <= k < |r.dirs| ==> ArgsArePresent(s, r.dirs[k])
    decreases |s| - i
  {
    hide ParseDirective, Takes, References, ArgsArePresent;
    if i == |s| {
    } else if s[i] != '%' {
      ParseFromTakes(s, i + 1, dirs, capacity, st);
    } else {
      DirectiveTakes(s, i, st);
      var (d, st') := ParseDirective(s, i, st).value;
      TakesJoin(AllReferences(s, dirs), References(s, d), 0, st.posn, st'.posn);
      assert (dirs + [d])[..|dirs|] == dirs;
      ParseFromTakes(s, d.dirEnd, dirs + [d], DirectivesGrown(|dirs| + 1, capacity).value, st');
    }
  }

  /**
   The references without a position, in the order in which they stand in the format, take the arguments 0, 1, 2 and so on,
   the star of a width before that of the precision, and both before the conversion. A reference with a position n$
   takes argument n - 1. A directive has no index for a part that refers to no argument.
   */
  lemma ArgumentsInOrder(s: string)
    requires Parse(s).Ok?
    ensures
      var dirs := Parse(s).value.dirs;
      && AllInText(s, dirs) && InOrder(AllReferences(s, dirs), 0)
      && forall k :: 0 <= k < |dirs| ==> ArgsArePresent(s, dirs[k])
  {
    hide ParseFrom;
    TakesNothing(0);
    ParseFromTakes(s, 0, [], 7, INITIAL_STATE);
  }
}
