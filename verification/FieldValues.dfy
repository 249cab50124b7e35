/** The width and the precision that a directive stands for, from its text or from an argument. */
module FieldValues {
  import opened Digits
  import opened Xsize
  import opened FormatSyntax
  import opened FormatGrammar
  import opened ParserSpec
  import opened ParserProperties
  import opened FormatParser
  import opened FetchArgs

  /** An int argument. */
  predicate IsIntValue(v: Value) {
    v.Integer? && -0x8000_0000 <= v.n < 0x8000_0000
  }

  ghost predicate WidthReady(s: string, d: Directive, values: seq<Value>) {
    && d.widthStart <= d.widthEnd <= |s|
    && (d.widthStart != d.widthEnd ==>
          if d.widthArg != ARG_NONE then d.widthArg < |values| && IsIntValue(values[d.widthArg])
          else AllDigits(s[d.widthStart..d.widthEnd]))
  }

  ghost predicate PrecisionReady(s: string, d: Directive, values: seq<Value>) {
    && d.precisionStart <= d.precisionEnd <= |s|
    && (d.precisionStart != d.precisionEnd ==>
          if d.precisionArg != ARG_NONE then d.precisionArg < |values| && IsIntValue(values[d.precisionArg])
          else AllDigits(s[d.precisionStart + 1..d.precisionEnd]))
  }

  /** A negative width is a - flag and a positive width. */
  ghost function WidthOf(s: string, d: Directive, values: seq<Value>): (set<Flag>, Size)
    requires WidthReady(s, d, values)
  {
    if d.widthStart == d.widthEnd then (d.flags, 0)
    else if d.widthArg == ARG_NONE then (d.flags, Saturate(NumberOf(s[d.widthStart..d.widthEnd])))
    else
      var n := values[d.widthArg].n;
      if n < 0 then (d.flags + {Left}, -n) else (d.flags, n)
  }

  /** A negative precision is taken as if it were omitted. A point alone means zero. */
  ghost function PrecisionOf(s: string, d: Directive, values: seq<Value>): Option<Size>
    requires PrecisionReady(s, d, values)
  {
    if d.precisionStart == d.precisionEnd then None
    else if d.precisionArg == ARG_NONE then Some(Saturate(NumberOf(s[d.precisionStart + 1..d.precisionEnd])))
    else
      var n := values[d.precisionArg].n;
      if n < 0 then None else Some(n)
  }

  /** The number that a width or precision stands for: digits as they are, or too large to count; or the argument of a star. */
  ghost predicate StandsFor(text: string, arg: Size, values: seq<Value>, n: int) {
    if arg == ARG_NONE then AllDigits(text) && (n == NumberOf(text) || (n == 0xFFFF_FFFF_FFFF_FFFF <= NumberOf(text)))
    else arg < |values| && values[arg] == Integer(n)
  }

  /** The width is the number that stands in the directive, without its sign; a negative one sets the - flag, and nothing else does. */
  lemma WidthMeans(s: string, d: Directive, values: seq<Value>) returns (n: int)
    requires WidthReady(s, d, values)
    ensures if d.widthStart == d.widthEnd then n == 0 else StandsFor(s[d.widthStart..d.widthEnd], d.widthArg, values, n)
    ensures
      var (flags, width) := WidthOf(s, d, values);
      && (width == n || width == -n)
      && forall f :: f in flags <==> f in d.flags || (f == Left && n < 0)
  {
    n := 0;
    if d.widthStart != d.widthEnd {
      n := if d.widthArg == ARG_NONE then Saturate(NumberOf(s[d.widthStart..d.widthEnd])) else values[d.widthArg].n;
    }
  }

  /** The precision is absent exactly if none stands in the directive or the argument is negative; otherwise it is that number. */
  lemma PrecisionMeans(s: string, d: Directive, values: seq<Value>) returns (n: int)
    requires PrecisionReady(s, d, values)
    ensures
      if d.precisionStart == d.precisionEnd then n == -1
      else StandsFor(s[d.precisionStart + 1..d.precisionEnd], d.precisionArg, values, n)
    ensures
      match PrecisionOf(s, d, values)
      case None => n < 0
      case Some(p) => n == p
  {
    n := -1;
    if d.precisionStart != d.precisionEnd {
      n := if d.precisionArg == ARG_NONE then Saturate(NumberOf(s[d.precisionStart + 1..d.precisionEnd]))
           else values[d.precisionArg].n;
    }
  }

  lemma SliceIsDigits(s: string, from: nat, to: nat)
    requires from <= to <= |s| && AllDigits(s[from..to])
    ensures forall i :: from <= i < to ==> IsDigit(s[i])
  {
    forall i | from <= i < to
      ensures IsDigit(s[i])
    {
      assert s[i] == s[from..to][i - from];
    }
  }

  method ResolveWidth(s: string, d: Directive, values: seq<Value>) returns (flags: set<Flag>, width: Size)
    requires WidthReady(s, d, values)
    ensures (flags, width) == WidthOf(s, d, values)
  {
    flags, width := d.flags, 0;
    if d.widthStart != d.widthEnd {
      if d.widthArg != ARG_NONE {
        var arg := values[d.widthArg].n;
        if arg < 0 {
          flags := flags + {Left};
          width := -arg;
        } else {
          width := arg;
        }
      } else {
        SliceIsDigits(s, d.widthStart, d.widthEnd);
        width := ReadNumber(s, d.widthStart, d.widthEnd);
      }
    }
  }

  method ResolvePrecision(s: string, d: Directive, values: seq<Value>) returns (precision: Option<Size>)
    requires PrecisionReady(s, d, values)
    ensures precision == PrecisionOf(s, d, values)
  {
    precision := None;
    if d.precisionStart != d.precisionEnd {
      if d.precisionArg != ARG_NONE {
        var arg := values[d.precisionArg].n;
        if arg >= 0 {
          precision := Some(arg);
        }
      } else {
        SliceIsDigits(s, d.precisionStart + 1, d.precisionEnd);
        var n := ReadNumber(s, d.precisionStart + 1, d.precisionEnd);
        precision := Some(n);
      }
    }
  }

  // ---------- After parsing and fetching ----------

  lemma LiteralWidth(u: string)
    requires ScanWidth(u).Literal?
    ensures AllDigits(u[..ScanWidth(u).TextLength()])
  {
  }

  lemma LiteralPrecision(u: string)
    requires ScanPrecision(u).Literal?
    ensures ScanPrecision(u).TextLength() > 0 && AllDigits(u[1..ScanPrecision(u).TextLength()])
  {
    var n := DigitRun(u[1..]);
    assert forall i :: 0 <= i < n ==> u[1..1 + n][i] == u[1..][i];
  }

  /** What fetching guarantees: the argument of a star is an int. */
  ghost predicate IntsFetched(types: seq<ArgType>, values: seq<Value>) {
    |types| <= |values| && forall i :: 0 <= i < |types| && types[i] == TypeInt ==> IsIntValue(values[i])
  }

  lemma WidthIsReady(s: string, d: Directive, types: seq<ArgType>, values: seq<Value>)
    requires Faithful(s, d) && Typed(ScanAt(s, d.dirStart), d, types) && IntsFetched(types, values)
    ensures WidthReady(s, d, values)
  {
    hide ScanParts, ScanWidth, ScanPrecision, ScanAt, Records;
    FieldTexts(s, d);
    var r := s[d.dirStart + 1..];
    var p := ScanParts(r);
    PartsFound(r);
    if p.width.Literal? {
      LiteralWidth(r[p.widthAt..]);
    }
  }

  lemma PrecisionIsReady(s: string, d: Directive, types: seq<ArgType>, values: seq<Value>)
    requires Faithful(s, d) && Typed(ScanAt(s, d.dirStart), d, types) && IntsFetched(types, values)
    ensures PrecisionReady(s, d, values)
  {
    hide ScanParts, ScanWidth, ScanPrecision, ScanAt, Records;
    FieldTexts(s, d);
    var r := s[d.dirStart + 1..];
    var p := ScanParts(r);
    PartsFound(r);
    if p.precision.Literal? {
      LiteralPrecision(r[p.precisionAt..]);
      var t := s[d.precisionStart..d.precisionEnd];
      assert s[d.precisionStart + 1..d.precisionEnd] == t[1..];
    }
  }
}
