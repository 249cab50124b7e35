/** The whole function: parse the format, fetch the arguments, and write gaps and expansions. */
module Vasnprintf {
  import opened Integers
  import opened Bignum
  import opened Xsize
  import opened FormatSyntax
  import opened ParserSpec
  import opened ParserProperties
  import opened FormatParser
  import opened Reprint
  import opened FetchArgs
  import opened FieldValues
  import opened FloatFormat
  import opened FloatFits
  import opened Layout
  import opened Output

  /** What a floating-point number is decoded into, and the guess of its decimal exponent. */
  datatype Decoding = Decoding(limbs: seq<Limb>, guess: int)

  /**
   What comes from outside: the text that snprintf makes of a format with one directive and its arguments,
   the decimal point, and a decoding for each directive, which counts for floating-point numbers only.
   */
  datatype Outside = Outside(snprintf: (string, seq<Value>) -> string, point: char, decodings: seq<Decoding>)

  /** DBL_DIG + 1 and LDBL_DIG + 1 */
  function DigitsHeld(t: ArgType): Size {
    if t == TypeLongDouble then 19 else 16
  }

  // ---------- What is written ----------

  ghost predicate FieldsReady(s: string, d: Directive, values: seq<Value>) {
    WidthReady(s, d, values) && PrecisionReady(s, d, values)
  }

  /** A number comes with its limbs and a good guess. */
  ghost predicate NumberReady(s: string, d: Directive, values: seq<Value>, decoding: Decoding)
    requires FieldsReady(s, d, values) && d.arg < |values|
  {
    && values[d.arg].Floating?
    && var x, p := values[d.arg].x, EffectivePrecision(PrecisionOf(s, d, values));
    && (x.Finite? ==>
          && Val(decoding.limbs) == x.mantissa
          && IntsFit(d.conversion, p, x.mantissa, x.exponent, decoding.guess)
          && GoodGuess(x.mantissa, x.exponent, decoding.guess))
  }

  /** The search for the exponent of the number gives up. */
  ghost predicate NumberGivesUp(s: string, d: Directive, values: seq<Value>)
    requires FieldsReady(s, d, values) && d.arg < |values| && values[d.arg].Floating?
  {
    && values[d.arg].x.Finite?
    && GivesUp(d.conversion, EffectivePrecision(PrecisionOf(s, d, values)), values[d.arg].x.mantissa)
  }

  lemma NumberHasText(x: ScaledValue.Number, c: char, alt: bool, p: nat, guess: int, point: char)
    requires IsFloat(c) && (x.Finite? ==> GoodGuess(x.mantissa, x.exponent, guess) && !GivesUp(c, p, x.mantissa))
    ensures x.Finite? ==> FiniteText(c, alt, p, x.mantissa, x.exponent, guess, point).Some?
  {
    hide FiniteText, GoodGuess, GivesUp;
    if x.Finite? {
      TextExists(c, alt, p, x.mantissa, x.exponent, guess, point);
    }
  }

  /** The text of a number, unless the search gives up. */
  ghost function NumberText(s: string, d: Directive, values: seq<Value>, decoding: Decoding, point: char): string
    requires IsFloat(d.conversion) && FieldsReady(s, d, values) && d.arg < |values| && NumberReady(s, d, values, decoding)
  {
    if NumberGivesUp(s, d, values) then ""
    else
      var (flags, width) := WidthOf(s, d, values);
      var x, p := values[d.arg].x, EffectivePrecision(PrecisionOf(s, d, values));
      NumberHasText(x, d.conversion, Alt in flags, p, decoding.guess, point);
      FloatText(d.conversion, flags, width, p, x, decoding.guess, point)
  }

  /** Padding and precision are left to snprintf. */
  const SYSTEM := Ourselves(false, false)

  /** What snprintf is passed: the arguments of stars, and the argument of the conversion. */
  function SystemArgs(d: Directive, values: seq<Value>): seq<Value>
    requires d.arg < |values|
    requires d.widthArg == ARG_NONE || d.widthArg < |values|
    requires d.precisionArg == ARG_NONE || d.precisionArg < |values|
  {
    (if d.widthArg != ARG_NONE then [values[d.widthArg]] else [])
    + (if d.precisionArg != ARG_NONE then [values[d.precisionArg]] else [])
    + [values[d.arg]]
  }

  /** What snprintf makes of a directive: it is passed the format rebuilt for it. */
  ghost function SystemText(s: string, d: Directive, types: seq<ArgType>, values: seq<Value>, o: Outside): string
    requires Executable(d, types) && d.conversion != '%' && |values| == |types| && InText(s, d)
  {
    o.snprintf(Printed(s, d, d.flags, types[d.arg], SYSTEM), SystemArgs(d, values))
  }

  lemma StarsHaveArgs(s: string, d: Directive, types: seq<ArgType>)
    requires Faithful(s, d) && Typed(ScanAt(s, d.dirStart), d, types)
    ensures InText(s, d)
    ensures d.widthArg != ARG_NONE <==> s[d.widthStart..d.widthEnd] == "*"
    ensures d.precisionArg != ARG_NONE <==> s[d.precisionStart..d.precisionEnd] == ".*"
  {
    hide ScanAt, Records;
    StarsInText(s, d);
  }

  /** The arguments passed are those that a format with this one directive asks for. */
  ghost predicate Serve(args: seq<Value>, r: Parsed, d: Directive, values: seq<Value>) {
    && |r.dirs| == 1 && |args| == |r.st.args.types|
    && var d' := r.dirs[0];
    && d.arg < |values| && d'.arg < |args| && args[d'.arg] == values[d.arg]
    && (d'.widthArg != ARG_NONE <==> d.widthArg != ARG_NONE)
    && (d.widthArg != ARG_NONE ==>
          d.widthArg < |values| && d'.widthArg < |args| && args[d'.widthArg] == values[d.widthArg])
    && (d'.precisionArg != ARG_NONE <==> d.precisionArg != ARG_NONE)
    && (d.precisionArg != ARG_NONE ==>
          d.precisionArg < |values| && d'.precisionArg < |args| && args[d'.precisionArg] == values[d.precisionArg])
  }

  lemma ArgsServe(d: Directive, values: seq<Value>, r: Parsed, argType: ArgType)
    requires |r.dirs| == 1
    requires TakesInOrder(r.dirs[0], r.st.args.types, d.widthArg != ARG_NONE, d.precisionArg != ARG_NONE, argType)
    requires d.arg < |values| && (d.widthArg == ARG_NONE || d.widthArg < |values|)
    requires d.precisionArg == ARG_NONE || d.precisionArg < |values|
    ensures Serve(SystemArgs(d, values), r, d, values)
  {
  }

  lemma ExecutableArgs(d: Directive, types: seq<ArgType>)
    requires Executable(d, types) && d.conversion != '%'
    ensures d.arg < |types| && (d.widthArg == ARG_NONE || d.widthArg < |types|)
    ensures d.precisionArg == ARG_NONE || d.precisionArg < |types|
  {
  }

  /**
   What snprintf is passed for a directive that is not a number: a format that parses as this one directive, with the width and
   the precision that stand in the whole format; and exactly the arguments that this format asks for, each in the place
   where it asks for it.
   */
  lemma SnprintfIsPassed(s: string, d: Directive, types: seq<ArgType>, values: seq<Value>, o: Outside)
    returns (text: string, args: seq<Value>)
    requires Faithful(s, d) && Typed(ScanAt(s, d.dirStart), d, types) && d.conversion !in ['n', '%'] && |values| == |types|
    ensures Executable(d, types) && InText(s, d) && SystemText(s, d, types, values, o) == o.snprintf(text, args)
    ensures Parse(text).Ok? && IsReprint(s, d, d.flags, types[d.arg], Ourselves(false, false), text, Parse(text).value)
    ensures Serve(args, Parse(text).value, d, values)
  {
    hide Parse, ScanAt, Records, Printed, SystemArgs, Executable, Serve, Faithful, FieldTyped;
    DirectiveIsExecutable(s, d, types);
    ExecutableArgs(d, types);
    StarsHaveArgs(s, d, types);
    PrintThenParse(s, d, d.flags, types[d.arg], SYSTEM);
    text, args := Printed(s, d, d.flags, types[d.arg], SYSTEM), SystemArgs(d, values);
    ArgsServe(d, values, Parse(text).value, Parse(text).value.st.args.types[Parse(text).value.dirs[0].arg]);
  }

  /** A directive can be executed, and what it needs from outside is there. */
  ghost predicate DirectiveReady(s: string, d: Directive, types: seq<ArgType>, values: seq<Value>, o: Outside, decoding: Decoding) {
    && Executable(d, types) && |values| == |types| && FieldsReady(s, d, values)
    && (d.conversion != '%' && d.conversion != 'n' ==>
          if IsFloat(d.conversion) then NumberReady(s, d, values, decoding)
          else |SystemText(s, d, types, values, o)| < SIZE_MAX)
  }

  /** %% gives a % sign, %n nothing, a number its text, and every other directive the text that snprintf makes. */
  ghost function Expansion(s: string, d: Directive, types: seq<ArgType>, values: seq<Value>, o: Outside, decoding: Decoding): string
    requires DirectiveReady(s, d, types, values, o, decoding)
  {
    if d.conversion == '%' then "%"
    else if d.conversion == 'n' then ""
    else if IsFloat(d.conversion) then NumberText(s, d, values, decoding, o.point)
    else SystemText(s, d, types, values, o)
  }

  /** %% stands for a % sign, %n for nothing, and what is no number for the text that snprintf makes of the directive and its arguments. */
  lemma ExpansionMeans(s: string, d: Directive, types: seq<ArgType>, values: seq<Value>, o: Outside, decoding: Decoding)
    requires Faithful(s, d) && Typed(ScanAt(s, d.dirStart), d, types) && DirectiveReady(s, d, types, values, o, decoding)
    ensures
      var t := Expansion(s, d, types, values, o, decoding);
      && (d.conversion == '%' ==> t == "%")
      && (d.conversion == 'n' ==> t == "")
      && (d.conversion !in ['%', 'n', 'f', 'F', 'e', 'E', 'g', 'G'] ==>
            exists text, args ::
              && t == o.snprintf(text, args) && Parse(text).Ok? && InText(s, d) && d.arg < |types|
              && IsReprint(s, d, d.flags, types[d.arg], Ourselves(false, false), text, Parse(text).value)
              && Serve(args, Parse(text).value, d, values))
  {
    hide Parse, ScanAt, Records, Faithful, Typed, Executable, IsReprint, Serve, FieldsReady, NumberReady, NumberText, SystemText;
    if d.conversion !in ['%', 'n', 'f', 'F', 'e', 'E', 'g', 'G'] {
      var text, args := SnprintfIsPassed(s, d, types, values, o);
      ExecutableArgs(d, types);
    }
  }

  /**
   The field of a number, in terms of the directive: w is its width, negative for the - flag, and q is its precision, negative
   for six. The field holds the text of the number with its sign, and the padding that is missing to the width.
   */
  lemma NumberField(s: string, d: Directive, types: seq<ArgType>, values: seq<Value>, o: Outside, decoding: Decoding)
    returns (w: int, q: int, before: nat, sign: string, inside: nat, body: string, after: nat)
    requires d.conversion in ['f', 'F', 'e', 'E', 'g', 'G'] && DirectiveReady(s, d, types, values, o, decoding)
    requires !NumberGivesUp(s, d, values)
    ensures if d.widthStart == d.widthEnd then w == 0 else StandsFor(s[d.widthStart..d.widthEnd], d.widthArg, values, w)
    ensures
      if d.precisionStart == d.precisionEnd then q == -1
      else StandsFor(s[d.precisionStart + 1..d.precisionEnd], d.precisionArg, values, q)
    ensures IsShape(Expansion(s, d, types, values, o, decoding), sign, body, before, inside, after)
    ensures IsBody(body, d.conversion, Alt in d.flags, if q < 0 then 6 else q, values[d.arg].x, decoding.guess, o.point)
    ensures
      var x := values[d.arg].x;
      && sign ==
         (if x.NaN? then "" else if x.negative then "-" else if ShowSign in d.flags then "+" else if Space in d.flags then " " else "")
      && before + inside + after == Max(if w < 0 then -w else w, |sign| + |body|) - |sign| - |body|
      && (after > 0 ==> Left in d.flags || w < 0)
      && (inside > 0 ==> Left !in d.flags && w >= 0 && Zero in d.flags && x.Finite?)
      && (before > 0 ==> Left !in d.flags && w >= 0 && (Zero !in d.flags || !x.Finite?))
  {
    hide WidthOf, PrecisionOf, WidthReady, PrecisionReady, GoodGuess, IntsFit, FloatText, FiniteText, GivesUp, IsShape, StandsFor,
      Executable;
    ExecutableArgs(d, types);
    w := WidthMeans(s, d, values);
    q := PrecisionMeans(s, d, values);
    var (flags, width) := WidthOf(s, d, values);
    var x, p := values[d.arg].x, EffectivePrecision(PrecisionOf(s, d, values));
    NumberHasText(x, d.conversion, Alt in flags, p, decoding.guess, o.point);
    before, sign, inside, body, after := NumberIsLaidOut(d.conversion, flags, width, p, x, decoding.guess, o.point);
  }

  ghost predicate AllDirectivesReady(s: string, dirs: seq<Directive>, types: seq<ArgType>, values: seq<Value>, o: Outside) {
    && Ordered(s, dirs) && |o.decodings| == |dirs|
    && (forall k :: 0 <= k < |dirs| ==> Executable(dirs[k], types))
    && (forall k :: 0 <= k < |dirs| ==> DirectiveReady(s, dirs[k], types, values, o, o.decodings[k]))
  }

  ghost function Expansions(s: string, dirs: seq<Directive>, types: seq<ArgType>, values: seq<Value>, o: Outside): (e: seq<string>)
    requires AllDirectivesReady(s, dirs, types, values, o)
    ensures |e| == |dirs|
    ensures forall k :: 0 <= k < |dirs| ==> e[k] == Expansion(s, dirs[k], types, values, o, o.decodings[k])
  {
    seq(|dirs|, k requires 0 <= k < |dirs| => Expansion(s, dirs[k], types, values, o, o.decodings[k]))
  }

  /** The temporary buffer for a number would be too large. */
  ghost predicate TmpOverflows(s: string, d: Directive, types: seq<ArgType>, values: seq<Value>, o: Outside, decoding: Decoding)
    requires DirectiveReady(s, d, types, values, o, decoding)
  {
    && IsFloat(d.conversion)
    && SizeOverflow(TmpLength(DigitsHeld(types[d.arg]), EffectivePrecision(PrecisionOf(s, d, values)), WidthOf(s, d, values).1,
                              IsFixed(d.conversion), LengthGuess(values[d.arg].x, decoding.guess)))
  }

  /** It is too large exactly for a width or a number of digits close to SIZE_MAX; how many digits the type holds does not matter. */
  lemma TmpOverflowsExactly(s: string, d: Directive, types: seq<ArgType>, values: seq<Value>, o: Outside, decoding: Decoding)
    requires DirectiveReady(s, d, types, values, o, decoding) && d.conversion in ['f', 'F', 'e', 'E', 'g', 'G']
    ensures
      var p := EffectivePrecision(PrecisionOf(s, d, values));
      var guess := LengthGuess(values[d.arg].x, decoding.guess);
      var wraps := d.conversion in ['f', 'F'] && guess.Some? && guess.value >= 0;
      var digits := if wraps then (guess.value + p) % 0x1_0000_0000_0000_0000 else 0;
      TmpOverflows(s, d, types, values, o, decoding) <==>
      Max(Max(p, digits) + 12, WidthOf(s, d, values).1) + 1 >= SIZE_MAX
  {
    hide WidthOf, PrecisionOf, TmpLength, GoodGuess, IntsFit;
    TmpLengthIs(DigitsHeld(types[d.arg]), EffectivePrecision(PrecisionOf(s, d, values)), WidthOf(s, d, values).1,
                IsFixed(d.conversion), LengthGuess(values[d.arg].x, decoding.guess));
  }

  /** The formatter aborts at this directive. */
  ghost predicate Aborts(s: string, d: Directive, types: seq<ArgType>, values: seq<Value>, o: Outside, decoding: Decoding)
    requires DirectiveReady(s, d, types, values, o, decoding)
  {
    IsFloat(d.conversion) && NumberGivesUp(s, d, values)
  }

  /** How a directive ends. */
  ghost predicate EndsAs(s: string, d: Directive, types: seq<ArgType>, values: seq<Value>, o: Outside, decoding: Decoding,
                         before: string, ending: Ending, after: string)
    requires DirectiveReady(s, d, types, values, o, decoding)
  {
    match ending
    case Done => !Aborts(s, d, types, values, o, decoding) && after == before + Expansion(s, d, types, values, o, decoding)
    case NoMemory =>
      || TmpOverflows(s, d, types, values, o, decoding)
      || |before| + |Expansion(s, d, types, values, o, decoding)| > SIZE_MAX / 2
    case Abort => Aborts(s, d, types, values, o, decoding)
  }

  // ---------- A directive ----------

  /** Formats a number and appends its text. */
  method ExecuteFloat(s: string, dp: Directive, types: seq<ArgType>, values: seq<Value>, o: Outside, decoding: Decoding,
                      acc: Accumulator)
    returns (ending: Ending)
    requires IsFloat(dp.conversion) && DirectiveReady(s, dp, types, values, o, decoding)
    requires acc.Valid()
    modifies acc, acc.result
    ensures acc.Valid() && (acc.result == old(acc.result) || fresh(acc.result))
    ensures EndsAs(s, dp, types, values, o, decoding, old(acc.Written()), ending, acc.Written())
  {
    hide GoodGuess, FloatText, FiniteText, TmpLength, WidthOf, PrecisionOf, WidthReady, PrecisionReady, GivesUp, IntsFit;
    var flags, width := ResolveWidth(s, dp, values);
    var precision := ResolvePrecision(s, dp, values);
    var limbs := new Limb[|decoding.limbs|](i requires 0 <= i < |decoding.limbs| => decoding.limbs[i]);
    var m := Mpn(limbs, 0, |decoding.limbs|);
    assert limbs[0..|decoding.limbs|] == decoding.limbs;
    var tmp, count;
    ending, tmp, count := FormatFloat(dp.conversion, flags, width, precision, DigitsHeld(types[dp.arg]), values[dp.arg].x, m,
                                      decoding.guess, o.point);
    if ending.Done? {
      var ok := acc.AppendText(tmp[..count]);
      ending := if ok then Done else NoMemory;
    }
  }

  lemma FieldsInText(s: string, d: Directive, values: seq<Value>)
    requires FieldsReady(s, d, values)
    ensures InText(s, d)
  {
  }

  /** Rebuilds the directive in the buffer, has snprintf make a text of it, and appends the text. */
  method ExecuteSystem(s: string, dp: Directive, types: seq<ArgType>, values: seq<Value>, o: Outside, decoding: Decoding,
                       maxWidth: Size, maxPrecision: Size, buf: array<char>, acc: Accumulator)
    returns (ok: bool)
    requires dp.conversion !in ['%', 'n'] && !IsFloat(dp.conversion) && DirectiveReady(s, dp, types, values, o, decoding)
    requires dp.widthEnd - dp.widthStart <= maxWidth && dp.precisionEnd - dp.precisionStart <= maxPrecision
    requires buf.Length == Xsum4(7, maxWidth, maxPrecision, 6) && !SizeOverflow(buf.Length)
    requires acc.Valid() && acc.result != buf
    modifies acc, acc.result, buf
    ensures acc.Valid() && (acc.result == old(acc.result) || fresh(acc.result))
    ensures EndsAs(s, dp, types, values, o, decoding, old(acc.Written()), if ok then Done else NoMemory, acc.Written())
  {
    hide Printed, WidthReady, PrecisionReady, Executable;
    FieldsInText(s, dp, values);
    ExecutableArgs(dp, types);
    var length := PrintDirective(s, dp, dp.flags, types[dp.arg], SYSTEM, maxWidth, maxPrecision, buf);
    ok := acc.AppendText(o.snprintf(buf[..length], SystemArgs(dp, values)));
  }

  /** One directive: its expansion is written, or the length so far is stored. */
  method Execute(s: string, dp: Directive, types: seq<ArgType>, values: seq<Value>, o: Outside, decoding: Decoding,
                 maxWidth: Size, maxPrecision: Size, buf: array<char>, acc: Accumulator, counts: seq<Count>)
    returns (ending: Ending, counts': seq<Count>)
    requires DirectiveReady(s, dp, types, values, o, decoding)
    requires dp.widthEnd - dp.widthStart <= maxWidth && dp.precisionEnd - dp.precisionStart <= maxPrecision
    requires buf.Length == Xsum4(7, maxWidth, maxPrecision, 6) && !SizeOverflow(buf.Length)
    requires acc.Valid() && acc.result != buf
    modifies acc, acc.result, buf
    ensures acc.Valid() && (acc.result == old(acc.result) || fresh(acc.result))
    ensures EndsAs(s, dp, types, values, o, decoding, old(acc.Written()), ending, acc.Written())
    ensures
      ending.Done? ==>
        counts' == counts + if dp.conversion == 'n' then [Count(dp.arg, CountAs(types[dp.arg], old(acc.length)))] else []
  {
    hide WidthOf, PrecisionOf, FieldsReady, GoodGuess, NumberReady, NumberText, SystemText, TmpLength, NumberGivesUp, CountAs;
    ending, counts' := Done, counts;
    var ok := true;
    if dp.conversion == '%' {
      assert dp.arg == ARG_NONE;
      ok := acc.AppendText("%");
    } else {
      assert dp.arg != ARG_NONE;
      if dp.conversion == 'n' {
        assert IsCountType(types[dp.arg]);
        counts' := counts + [Count(dp.arg, CountAs(types[dp.arg], acc.length))];
      } else if IsFloat(dp.conversion) {
        ending := ExecuteFloat(s, dp, types, values, o, decoding, acc);
      } else {
        ok := ExecuteSystem(s, dp, types, values, o, decoding, maxWidth, maxPrecision, buf, acc);
      }
    }
    if !ok {
      ending := NoMemory;
    }
  }

  // ---------- The main loop ----------

  ghost predicate FieldsWithin(d: Directive, maxWidth: nat, maxPrecision: nat) {
    d.widthEnd - d.widthStart <= maxWidth && d.precisionEnd - d.precisionStart <= maxPrecision
  }

  /** What the tables hold after a successful parse. */
  ghost predicate Ready(s: string, d: Directives, a: Arguments)
    reads d, d.dir, a, a.arg
  {
    && d.Valid() && a.Valid()
    && d.dir[d.count].dirStart == |s|
    && d.maxWidthLength <= |s| && d.maxPrecisionLength <= |s|
    && forall k :: 0 <= k < d.count ==> FieldsWithin(d.dir[k], d.maxWidthLength, d.maxPrecisionLength)
  }

  /**
   How the loop ends: with everything in order; or because something does not fit into memory;
   or at the first directive that aborts.
   */
  ghost predicate Produced(s: string, dirs: seq<Directive>, types: seq<ArgType>, values: seq<Value>, o: Outside,
                           ending: Ending, written: string, counts: seq<Count>)
    requires AllDirectivesReady(s, dirs, types, values, o)
  {
    var e := Expansions(s, dirs, types, values, o);
    match ending
    case Done =>
      && written == Complete(s, dirs, e) && counts == Counts(s, dirs, e, types, |dirs|)
      && forall k :: 0 <= k < |dirs| ==> !Aborts(s, dirs[k], types, values, o, o.decodings[k])
    case NoMemory =>
      || |Complete(s, dirs, e)| + 1 > SIZE_MAX / 2
      || exists k :: 0 <= k < |dirs| && TmpOverflows(s, dirs[k], types, values, o, o.decodings[k])
    case Abort => exists k :: 0 <= k < |dirs| && Aborts(s, dirs[k], types, values, o, o.decodings[k])
  }

  /** The width and the precision of a number are less than 2^31. */
  ghost predicate IsModest(s: string, d: Directive, values: seq<Value>)
    requires FieldsReady(s, d, values)
  {
    WidthOf(s, d, values).1 < 0x8000_0000 && EffectivePrecision(PrecisionOf(s, d, values)) < 0x8000_0000
  }

  lemma OnlyNumbersOverflow(s: string, d: Directive, types: seq<ArgType>, values: seq<Value>, o: Outside, decoding: Decoding)
    requires DirectiveReady(s, d, types, values, o, decoding) && !IsFloat(d.conversion)
    ensures !TmpOverflows(s, d, types, values, o, decoding)
  {
  }

  lemma ModestIsDone(s: string, d: Directive, types: seq<ArgType>, values: seq<Value>, o: Outside, decoding: Decoding)
    requires DirectiveReady(s, d, types, values, o, decoding)
    requires d.conversion in ['f', 'F', 'e', 'E', 'g', 'G'] ==> IsModest(s, d, values)
    ensures !TmpOverflows(s, d, types, values, o, decoding) && !Aborts(s, d, types, values, o, decoding)
  {
    hide WidthOf, PrecisionOf, TmpLength, IntsFit, TmpOverflows, FieldsReady, Executable;
    if IsFloat(d.conversion) {
      TmpOverflowsExactly(s, d, types, values, o, decoding);
    } else {
      OnlyNumbersOverflow(s, d, types, values, o, decoding);
    }
  }

  /** If numbers have a modest width and precision, and the output is less than half of all memory, the whole output is there. */
  lemma ModestFormatSucceeds(s: string, dirs: seq<Directive>, types: seq<ArgType>, values: seq<Value>, o: Outside,
                             ending: Ending, written: string, counts: seq<Count>)
    requires AllDirectivesReady(s, dirs, types, values, o) && Produced(s, dirs, types, values, o, ending, written, counts)
    requires |Complete(s, dirs, Expansions(s, dirs, types, values, o))| < 0x7FFF_FFFF_FFFF_FFFF
    requires
      forall k :: 0 <= k < |dirs| && dirs[k].conversion in ['f', 'F', 'e', 'E', 'g', 'G'] ==>
        DirectiveReady(s, dirs[k], types, values, o, o.decodings[k]) && IsModest(s, dirs[k], values)
    ensures ending == Done && written == Complete(s, dirs, Expansions(s, dirs, types, values, o))
    ensures counts == Counts(s, dirs, Expansions(s, dirs, types, values, o), types, |dirs|)
  {
    hide DirectiveReady, IsModest, TmpOverflows, Aborts, Executable, Complete, Counts, Expansions;
    forall k | 0 <= k < |dirs|
      ensures DirectiveReady(s, dirs[k], types, values, o, o.decodings[k])
      ensures !TmpOverflows(s, dirs[k], types, values, o, o.decodings[k]) && !Aborts(s, dirs[k], types, values, o, o.decodings[k])
    {
      ModestIsDone(s, dirs[k], types, values, o, o.decodings[k]);
    }
  }

  /** What is written and stored after k directives; none of them aborted. */
  ghost predicate Progress(s: string, dirs: seq<Directive>, types: seq<ArgType>, values: seq<Value>, o: Outside, k: nat,
                           written: string, counts: seq<Count>)
    requires AllDirectivesReady(s, dirs, types, values, o)
  {
    var e := Expansions(s, dirs, types, values, o);
    && k <= |dirs| && written == Interleaved(s, dirs, e, k) && counts == Counts(s, dirs, e, types, k)
    && forall j :: 0 <= j < k ==> !Aborts(s, dirs[j], types, values, o, o.decodings[j])
  }

  lemma NoProgress(s: string, dirs: seq<Directive>, types: seq<ArgType>, values: seq<Value>, o: Outside)
    requires AllDirectivesReady(s, dirs, types, values, o)
    ensures Progress(s, dirs, types, values, o, 0, "", []) && GapStart(dirs, 0) == 0
  {
    hide DirectiveReady, Executable;
    FirstStep(s, dirs, Expansions(s, dirs, types, values, o), types);
  }

  /** One more gap and one more directive. */
  lemma MoreProgress(s: string, dirs: seq<Directive>, types: seq<ArgType>, values: seq<Value>, o: Outside, k: nat,
                     before: string, counts: seq<Count>, ending: Ending, after: string, counts': seq<Count>)
    requires AllDirectivesReady(s, dirs, types, values, o) && k < |dirs|
    requires Progress(s, dirs, types, values, o, k, before, counts)
    requires GapStart(dirs, k) <= dirs[k].dirStart <= |s|
    requires
      var d, gap := dirs[k], s[GapStart(dirs, k)..dirs[k].dirStart];
      && EndsAs(s, d, types, values, o, o.decodings[k], before + gap, ending, after)
      && (ending.Done? ==>
            counts' == counts + if d.conversion == 'n' then [Count(d.arg, CountAs(types[d.arg], |before + gap|))] else [])
    ensures
      if ending.Done? then Progress(s, dirs, types, values, o, k + 1, after, counts')
      else Produced(s, dirs, types, values, o, ending, after, counts')
  {
    hide DirectiveReady, Executable, Interleaved, Counts, Expansion, Aborts, TmpOverflows, GapStart, CountAs;
    var e := Expansions(s, dirs, types, values, o);
    PrefixIsShorter(s, dirs, e, k);
    NextStep(s, dirs, e, types, k);
  }

  /** The last gap. */
  lemma LastProgress(s: string, dirs: seq<Directive>, types: seq<ArgType>, values: seq<Value>, o: Outside,
                     before: string, counts: seq<Count>)
    requires AllDirectivesReady(s, dirs, types, values, o)
    requires Progress(s, dirs, types, values, o, |dirs|, before, counts)
    ensures GapStart(dirs, |dirs|) <= |s|
    ensures Produced(s, dirs, types, values, o, Done, before + s[GapStart(dirs, |dirs|)..|s|], counts)
  {
    hide DirectiveReady, Executable, Interleaved, Counts, Expansion, Aborts, GapStart;
    LastGap(s, dirs, |dirs|);
    var from := GapStart(dirs, |dirs|);
    assert s[from..|s|] == s[from..];
  }

  lemma TooLong(s: string, dirs: seq<Directive>, types: seq<ArgType>, values: seq<Value>, o: Outside, k: nat,
                before: string, counts: seq<Count>, more: nat)
    requires AllDirectivesReady(s, dirs, types, values, o)
    requires Progress(s, dirs, types, values, o, k, before, counts)
    requires |before| + more + 1 > SIZE_MAX / 2
    requires
      GapStart(dirs, k) + more <= if k < |dirs| then dirs[k].dirStart else |s|
    ensures Produced(s, dirs, types, values, o, NoMemory, before, counts)
  {
    hide DirectiveReady, Executable, Interleaved, Counts, Expansion, GapStart;
    var e := Expansions(s, dirs, types, values, o);
    LastGap(s, dirs, |dirs|);
    PrefixIsShorter(s, dirs, e, k);
  }

  /** If there is no memory, what was written does not matter. */
  lemma NoMemoryAnyway(s: string, dirs: seq<Directive>, types: seq<ArgType>, values: seq<Value>, o: Outside, ending: Ending,
                       written: string, counts: seq<Count>, written': string)
    requires AllDirectivesReady(s, dirs, types, values, o)
    requires Produced(s, dirs, types, values, o, ending, written, counts)
    requires ending.NoMemory? || (ending.Done? && |written| + 1 > SIZE_MAX / 2)
    ensures Produced(s, dirs, types, values, o, NoMemory, written', counts)
  {
    hide DirectiveReady, Executable, Counts, Expansion, Aborts, TmpOverflows;
  }

  lemma GapInText(s: string, dirs: seq<Directive>, types: seq<ArgType>, values: seq<Value>, o: Outside, k: nat)
    requires AllDirectivesReady(s, dirs, types, values, o) && k <= |dirs|
    ensures GapStart(dirs, k) <= |s| && |o.decodings| == |dirs|
    ensures
      k < |dirs| ==>
        && GapStart(dirs, k) <= dirs[k].dirStart <= |s|
        && DirectiveReady(s, dirs[k], types, values, o, o.decodings[k])
  {
    hide DirectiveReady, Executable, GapStart;
    LastGap(s, dirs, k);
  }

  /**
   The loop over gaps and directives. It produces the gaps of the format in order, each directive between them replaced
   by its expansion, and a NUL; every %n stores the length of what comes before it.
   */
  method WriteOutput(s: string, d: Directives, a: Arguments, values: seq<Value>, o: Outside, buf: array<char>,
                     resultbuf: array<char>)
    returns (ending: Ending, acc: Accumulator, counts: seq<Count>)
    requires Ready(s, d, a) && AllDirectivesReady(s, d.dir[..d.count], a.arg[..a.count], values, o)
    requires |s| < SIZE_MAX && resultbuf.Length < SIZE_MAX && resultbuf as object !in {d.dir, a.arg, d, a}
    requires buf as object !in {d.dir, a.arg, d, a} && buf != resultbuf
    requires buf.Length == Xsum4(7, d.maxWidthLength, d.maxPrecisionLength, 6) && !SizeOverflow(buf.Length)
    modifies resultbuf, buf
    ensures acc.Valid()
    ensures Produced(s, old(d.dir[..d.count]), old(a.arg[..a.count]), values, o, ending, acc.Written(), counts)
    ensures ending.Done? ==> acc.length < acc.result.Length && acc.result[acc.length] == '\0'
  {
    hide AllDirectivesReady, Produced, Progress, GapStart, DirectiveReady, EndsAs, Xsum4;
    acc := new Accumulator(resultbuf);
    counts := [];
    var count, end, types := d.count, d.dir[d.count], a.arg[..a.count];
    var dirs := d.dir[..count];
    var maxWidth, maxPrecision := d.maxWidthLength, d.maxPrecisionLength;
    assert forall k :: 0 <= k < count ==> FieldsWithin(dirs[k], maxWidth, maxPrecision);
    NoProgress(s, dirs, types, values, o);
    var cp, i := 0, 0;
    while true
      invariant i <= count && cp == GapStart(dirs, i)
      invariant acc.Valid() && (acc.result == resultbuf || fresh(acc.result)) && acc.result != buf
      invariant Progress(s, dirs, types, values, o, i, acc.Written(), counts)
      decreases count - i
    {
      var dp := if i < count then dirs[i] else end;
      GapInText(s, dirs, types, values, o, i);
      ghost var before := acc.Written();
      var ok := acc.AppendGap(s, cp, dp.dirStart);
      if !ok {
        TooLong(s, dirs, types, values, o, i, before, counts, dp.dirStart - cp);
        NoMemoryAnyway(s, dirs, types, values, o, NoMemory, before, counts, acc.Written());
        ending := NoMemory;
        return;
      }
      if i == count {
        LastProgress(s, dirs, types, values, o, before, counts);
        break;
      }
      ghost var counted := counts;
      ending, counts := Execute(s, dp, types, values, o, o.decodings[i], maxWidth, maxPrecision, buf, acc, counts);
      MoreProgress(s, dirs, types, values, o, i, before, counted, ending, acc.Written(), counts);
      if !ending.Done? {
        return;
      }
      NextGap(dirs, i);
      cp, i := dp.dirEnd, i + 1;
    }
    ghost var all := acc.Written();
    var ok := acc.Finish();
    ending := Done;
    if !ok {
      NoMemoryAnyway(s, dirs, types, values, o, Done, all, counts, acc.Written());
      ending := NoMemory;
    }
  }

  // ---------- The function ----------

  function AllStored(types: seq<ArgType>, args: seq<Value>): seq<Value>
    requires |types| <= |args|
  {
    seq(|types|, i requires 0 <= i < |types| => Stored(types[i], args[i]))
  }

  /** An argument that the format asks for is passed, an int as an int. */
  ghost predicate ArgsPassed(types: seq<ArgType>, args: seq<Value>) {
    && Gap(types) <= |args|
    && forall i :: 0 <= i < Gap(types) ==> Suits(types[i], args[i]) && (types[i] == TypeInt ==> IsIntValue(args[i]))
  }

  /** What comes from outside fits the directives, as far as these can be executed. */
  ghost predicate Provided(s: string, dirs: seq<Directive>, types: seq<ArgType>, args: seq<Value>, o: Outside) {
    && ArgsPassed(types, args) && |o.decodings| == |dirs|
    && (TypeNone !in types && |types| <= |args| ==>
          var values := AllStored(types, args);
          forall k :: 0 <= k < |dirs| && Executable(dirs[k], types) && FieldsReady(s, dirs[k], values) ==>
            DirectiveReady(s, dirs[k], types, values, o, o.decodings[k]))
  }

  lemma NoGap(types: seq<ArgType>)
    requires TypeNone !in types
    ensures Gap(types) == |types|
  {
    assert forall i :: 0 <= i < |types| ==> types[i] in types;
  }

  /** After a parse and a fetch that succeed, the loop finds all that it needs. */
  lemma AllReady(s: string, args: seq<Value>, o: Outside)
    requires Parse(s).Ok?
    requires
      var Parsed(dirs, st) := Parse(s).value;
      TypeNone !in st.args.types && Provided(s, dirs, st.args.types, args, o)
    ensures
      var Parsed(dirs, st) := Parse(s).value;
      var types := st.args.types;
      && |types| <= |args| && AllDirectivesReady(s, dirs, types, AllStored(types, args), o)
      && MaximaFit(s, st) && forall k :: 0 <= k < |dirs| ==> FieldsWithin(dirs[k], st.maxWidth, st.maxPrecision)
  {
    hide Parse, ParseFrom, ScanAt, Records, Executable, WidthReady, PrecisionReady, Typed, DirectiveReady, MaximaFit;
    var Parsed(dirs, st) := Parse(s).value;
    var types := st.args.types;
    NoGap(types);
    var values := AllStored(types, args);
    ParseIsSound(s);
    ParseMaxima(s);
    SegmentedIsOrdered(s, |s|, dirs);
    assert IntsFetched(types, values);
    forall k | 0 <= k < |dirs|
      ensures Executable(dirs[k], types) && DirectiveReady(s, dirs[k], types, values, o, o.decodings[k])
      ensures FieldsWithin(dirs[k], st.maxWidth, st.maxPrecision)
    {
      NothingAborts(s, k);
      WidthIsReady(s, dirs[k], types, values);
      PrecisionIsReady(s, dirs[k], types, values);
      assert Fits(dirs[k], st);
    }
  }

  /** The buffer for a directive: on the stack if it is small; otherwise its size must not overflow. */
  method ReserveBuffer(maxWidth: Size, maxPrecision: Size) returns (ok: bool, buf: array<char>)
    ensures ok == !SizeOverflow(Xsum4(7, maxWidth, maxPrecision, 6))
    ensures ok ==> fresh(buf) && buf.Length == Xsum4(7, maxWidth, maxPrecision, 6)
  {
    hide Xsum4;
    var neededLength := Xsum4(7, maxWidth, maxPrecision, 6);
    ok := true;
    if neededLength >= 4000 {
      var memorySize := Xtimes(neededLength, 1);
      if SizeOverflow(memorySize) {
        ok, buf := false, new char[0];
        return;
      }
    }
    buf := new char[neededLength];
  }

  /** Everything after the arguments are fetched. */
  method FormatFetched(s: string, d: Directives, a: Arguments, values: seq<Value>, o: Outside, resultbuf: array<char>)
    returns (ending: Ending, acc: Accumulator, counts: seq<Count>)
    requires Ready(s, d, a) && AllDirectivesReady(s, d.dir[..d.count], a.arg[..a.count], values, o)
    requires |s| < SIZE_MAX && resultbuf.Length < SIZE_MAX && resultbuf as object !in {d.dir, a.arg, d, a}
    modifies resultbuf
    ensures acc.Valid()
    ensures
      if old(SizeOverflow(Xsum4(7, d.maxWidthLength, d.maxPrecisionLength, 6))) then ending.NoMemory?
      else Produced(s, old(d.dir[..d.count]), old(a.arg[..a.count]), values, o, ending, acc.Written(), counts)
    ensures ending.Done? ==> acc.length < acc.result.Length && acc.result[acc.length] == '\0'
  {
    hide AllDirectivesReady, Produced, Xsum4;
    acc := new Accumulator(resultbuf);
    counts := [];
    var ok, buf := ReserveBuffer(d.maxWidthLength, d.maxPrecisionLength);
    if !ok {
      ending := NoMemory;
      return;
    }
    ending, acc, counts := WriteOutput(s, d, a, values, o, buf, resultbuf);
  }

  /** The format is rejected, or the function ends in one of three ways. */
  datatype Status = Rejected | Ended(ending: Ending)

  lemma ProvidedArgs(s: string, dirs: seq<Directive>, types: seq<ArgType>, args: seq<Value>, o: Outside)
    requires Provided(s, dirs, types, args, o)
    ensures Gap(types) <= |args| && forall i :: 0 <= i < Gap(types) ==> Suits(types[i], args[i])
  {
    hide Suits;
  }

  lemma FetchedAll(types: seq<ArgType>, args: seq<Value>, values: seq<Value>)
    requires |values| == |types| <= |args| && forall i :: 0 <= i < |types| ==> values[i] == Stored(types[i], args[i])
    ensures values == AllStored(types, args)
  {
    hide Stored;
  }

  /** What PRINTF_PARSE leaves in the tables. */
  ghost predicate TablesHold(s: string, d: Directives, a: Arguments)
    reads d, d.dir, a, a.arg
  {
    && Parse(s).Ok? && d.Valid() && a.Valid()
    && var Parsed(dirs, st) := Parse(s).value;
    && d.dir[..d.count] == dirs && d.dir[d.count].dirStart == |s| && a.Contents() == st.args
    && d.maxWidthLength == st.maxWidth && d.maxPrecisionLength == st.maxPrecision
  }

  /** What the function gives for a format whose arguments can be fetched. */
  ghost predicate IsFormatted(s: string, args: seq<Value>, o: Outside, ending: Ending, acc: Accumulator, counts: seq<Count>)
    requires Parse(s).Ok? && |s| < SIZE_MAX && acc.Valid()
    reads acc, acc.result
  {
    var Parsed(dirs, st) := Parse(s).value;
    var types := st.args.types;
    && MaximaFit(s, st)
    && |types| <= |args| && AllDirectivesReady(s, dirs, types, AllStored(types, args), o)
    && if SizeOverflow(Xsum4(7, st.maxWidth, st.maxPrecision, 6)) then ending == NoMemory
       else
         && Produced(s, dirs, types, AllStored(types, args), o, ending, acc.Written(), counts)
         && (ending.Done? ==> acc.length < acc.result.Length && acc.result[acc.length] == '\0')
  }

  lemma TablesReady(s: string, args: seq<Value>, o: Outside, d: Directives, a: Arguments, values: seq<Value>)
    requires TablesHold(s, d, a) && TypeNone !in a.arg[..a.count]
    requires Provided(s, Parse(s).value.dirs, Parse(s).value.st.args.types, args, o)
    requires |values| == a.count <= |args| && forall i :: 0 <= i < |values| ==> values[i] == Stored(a.arg[i], args[i])
    ensures Ready(s, d, a) && values == AllStored(a.arg[..a.count], args)
    ensures AllDirectivesReady(s, d.dir[..d.count], a.arg[..a.count], values, o)
    ensures MaximaFit(s, Parse(s).value.st)
  {
    hide Parse, Provided, AllDirectivesReady, Stored, AllStored;
    AllReady(s, args, o);
    FetchedAll(a.arg[..a.count], args, values);
  }

  /** Everything after the format is parsed. */
  method FormatParsed(s: string, args: seq<Value>, o: Outside, d: Directives, a: Arguments, resultbuf: array<char>)
    returns (status: Status, acc: Accumulator, counts: seq<Count>)
    requires |s| < SIZE_MAX && resultbuf.Length < SIZE_MAX && resultbuf as object !in {d.dir, a.arg, d, a}
    requires TablesHold(s, d, a)
    requires Provided(s, Parse(s).value.dirs, Parse(s).value.st.args.types, args, o)
    modifies resultbuf
    ensures acc.Valid()
    ensures
      if TypeNone in Parse(s).value.st.args.types then status == Rejected
      else status.Ended? && IsFormatted(s, args, o, status.ending, acc, counts)
  {
    hide Parse, Provided, AllDirectivesReady, Produced, AllStored, Xsum4, IsFetched, Stored, Suits;
    acc := new Accumulator(resultbuf);
    counts := [];
    ProvidedArgs(s, Parse(s).value.dirs, a.arg[..a.count], args, o);
    var values := new Value[a.count](_ => Integer(0));
    var fetched := Fetch(args, a, values);
    if !fetched {
      status := Rejected;
      return;
    }
    TablesReady(s, args, o, d, a, values[..]);
    var ending;
    ending, acc, counts := FormatFetched(s, d, a, values[..], o, resultbuf);
    status := Ended(ending);
  }

  /**
   VASNPRINTF. It rejects an invalid format and a gap in the positions of the arguments. Otherwise it gives the gaps of the
   format in order, with every directive between them expanded, and a NUL; unless memory does not suffice,
   or the precision of a number by %e or %g is more than an int can hold.
   */
  method Format(s: string, args: seq<Value>, o: Outside, resultbuf: array<char>)
    returns (status: Status, acc: Accumulator, counts: seq<Count>)
    requires '\0' !in s && |s| < SIZE_MAX && resultbuf.Length < SIZE_MAX
    requires Parse(s).Ok? ==> Provided(s, Parse(s).value.dirs, Parse(s).value.st.args.types, args, o)
    modifies resultbuf
    ensures acc.Valid()
    ensures
      match Parse(s)
      case Invalid => status == Rejected
      case OutOfMemory => status == Ended(NoMemory)
      case Ok(Parsed(_, st)) =>
        if TypeNone in st.args.types then status == Rejected
        else status.Ended? && IsFormatted(s, args, o, status.ending, acc, counts)
  {
    hide Parse, Provided, IsFormatted;
    acc := new Accumulator(resultbuf);
    counts := [];
    var d := new Directives();
    var a := new Arguments();
    var parsed := PrintfParse(s, d, a);
    if parsed.IsFailure() {
      status := if parsed.Invalid? then Rejected else Ended(NoMemory);
      return;
    }
    status, acc, counts := FormatParsed(s, args, o, d, a, resultbuf);
  }
}
