/** What the format parser computes, as a function of the format string and the tables so far. */
module ParserSpec {
  import opened Integers
  import opened Xsize
  import opened FormatSyntax

  /** sizeof (argument) and sizeof (char_directive). */
  const ARGUMENT_SIZE: Size := 32
  const DIRECTIVE_SIZE: Size := 88

  /** The index of an argument that is not there. */
  const ARG_NONE: Size := SIZE_MAX

  datatype Result<T> = Ok(value: T) | Invalid | OutOfMemory
  {
    predicate IsFailure() {
      !Ok?
    }

    function PropagateFailure<U>(): Result<U>
      requires IsFailure()
    {
      if Invalid? then Invalid else OutOfMemory
    }

    function Extract(): T
      requires Ok?
    {
      value
    }
  }

  /** A parsed directive. Positions are offsets into the format; a part is absent when its start is its end. */
  datatype Directive = Directive(
    dirStart: nat, dirEnd: nat,
    flags: set<Flag>,
    widthStart: nat, widthEnd: nat, widthArg: Size,
    precisionStart: nat, precisionEnd: nat, precisionArg: Size,
    conversion: char, arg: Size)

  /** The argument table: the types registered, and how many entries there is room for. */
  datatype Table = Table(types: seq<ArgType>, capacity: Size)

  /** What the parser carries from one directive to the next. */
  datatype State = State(args: Table, posn: Size, maxWidth: nat, maxPrecision: nat)

  // ---------- Registering an argument ----------

  /** The capacity after making room for an index. */
  function Grown(capacity: Size, index: Size): Size {
    if index < capacity then capacity
    else
      var doubled := Xtimes(capacity, 2);
      if doubled <= index then Xsum(index, 1) else doubled
  }

  /** The table, filled up with TypeNone to hold an index. */
  function Extended(types: seq<ArgType>, index: nat): (r: seq<ArgType>)
    ensures |r| == Max(|types|, index + 1) && types <= r
    ensures forall i :: |types| <= i < |r| ==> r[i] == TypeNone
  {
    if index < |types| then types else types + seq(index + 1 - |types|, _ => TypeNone)
  }

  /** An argument may be used more than once, but always with one type. */
  function Register(t: Table, index: Size, argType: ArgType): Result<Table> {
    var capacity := Grown(t.capacity, index);
    if index >= t.capacity && SizeOverflow(Xtimes(capacity, ARGUMENT_SIZE)) then OutOfMemory
    else
      var types := Extended(t.types, index);
      if types[index] == TypeNone then Ok(Table(types[index := argType], capacity))
      else if types[index] != argType then Invalid
      else Ok(Table(types, capacity))
  }

  /** The next argument without a position; ARG_NONE is what a wrapped-around counter yields. */
  function NextArg(posn: Size): Result<Size> {
    if posn == ARG_NONE then Invalid else Ok(posn)
  }

  /** The argument of a star: the position given, or the next argument. */
  function RegisterStar(f: Field, st: State): Result<(Size, State)> {
    match f
    case NoField => Ok((ARG_NONE, st))
    case Literal(_) => Ok((ARG_NONE, st))
    case Star(_, BadPosition) => Invalid
    case Star(_, Position(index, _)) =>
      var args :- Register(st.args, index, TypeInt);
      Ok((index, st.(args := args)))
    case Star(_, NoPosition) =>
      var index :- NextArg(st.posn);
      var args :- Register(st.args, index, TypeInt);
      Ok((index, st.(args := args, posn := st.posn + 1)))
  }

  /** The argument of the conversion, unless it takes none. */
  function RegisterConversion(position: Positional, argType: ArgType, st: State): Result<(Size, State)> {
    if argType == TypeNone then Ok((ARG_NONE, st))
    else
      match position
      case Position(index, _) =>
        var args :- Register(st.args, index, argType);
        Ok((index, st.(args := args)))
      case _ =>
        var index :- NextArg(st.posn);
        var args :- Register(st.args, index, argType);
        Ok((index, st.(args := args, posn := st.posn + 1)))
  }

  // ---------- A directive ----------

  /** The width and the precision of a directive, in this order. */
  function RegisterFields(p: Parts, st: State): Result<(Size, Size, State)> {
    var st1 := st.(maxWidth := Max(st.maxWidth, p.width.TextLength()));
    var (widthArg, st2) :- RegisterStar(p.width, st1);
    var st3 := st2.(maxPrecision := Max(st2.maxPrecision, p.precision.TextLength()));
    var (precisionArg, st4) :- RegisterStar(p.precision, st3);
    Ok((widthArg, precisionArg, st4))
  }

  /** What a directive is after its % sign: its parts and its conversion. */
  function ScanDirective(s: string): (r: Option<(Parts, Conversion)>)
    ensures r.Some? ==> r.value.0.letterAt < |s|
  {
    var p := ScanParts(s);
    match ConversionOf(CharAt(s, p.letterAt), p.sizeFlags)
    case None => None
    case Some(c) => Some((p, c))
  }

  function MakeDirective(start: nat, p: Parts, widthArg: Size, precisionArg: Size, letter: char, arg: Size): Directive {
    var at := start + 1;
    Directive(start, at + p.letterAt + 1, p.flags,
              if p.width.NoField? then 0 else at + p.widthAt,
              if p.width.NoField? then 0 else at + p.widthAt + p.width.TextLength(), widthArg,
              if p.precision.NoField? then 0 else at + p.precisionAt,
              if p.precision.NoField? then 0 else at + p.precisionAt + p.precision.TextLength(), precisionArg,
              letter, arg)
  }

  /** The directive at a % sign. Its arguments are registered in the order in which they are read. */
  function ParseDirective(s: string, start: nat, st: State): (r: Result<(Directive, State)>)
    requires start < |s|
    ensures r.Ok? ==> r.value.0.dirStart == start < r.value.0.dirEnd <= |s|
  {
    var p := ScanParts(s[start + 1..]);
    if p.position.BadPosition? then Invalid
    else
      var (widthArg, precisionArg, st4) :- RegisterFields(p, st);
      match ScanDirective(s[start + 1..])
      case None => Invalid
      case Some((_, c)) =>
        var (arg, st5) :- RegisterConversion(p.position, c.argType, st4);
        Ok((MakeDirective(start, p, widthArg, precisionArg, c.letter, arg), st5))
  }

  // ---------- The whole format ----------

  /** The directive table doubles when its last slot is used; memory for it may be too much to count. */
  function DirectivesGrown(count: nat, capacity: Size): Result<Size> {
    if count < capacity then Ok(capacity)
    else if SizeOverflow(Xtimes(Xtimes(capacity, 2), DIRECTIVE_SIZE)) then OutOfMemory
    else Ok(Xtimes(capacity, 2))
  }

  datatype Parsed = Parsed(dirs: seq<Directive>, st: State)

  /** Everything from position i on, given what came before. */
  function ParseFrom(s: string, i: nat, dirs: seq<Directive>, capacity: Size, st: State): Result<Parsed>
    requires i <= |s|
    decreases |s| - i
  {
    if i == |s| then Ok(Parsed(dirs, st))
    else if s[i] != '%' then ParseFrom(s, i + 1, dirs, capacity, st)
    else
      var (d, st') :- ParseDirective(s, i, st);
      var capacity' :- DirectivesGrown(|dirs| + 1, capacity);
      ParseFrom(s, d.dirEnd, dirs + [d], capacity', st')
  }

  const INITIAL_STATE := State(Table([], 7), 0, 0, 0)

  function Parse(s: string): Result<Parsed> {
    ParseFrom(s, 0, [], 7, INITIAL_STATE)
  }
}
