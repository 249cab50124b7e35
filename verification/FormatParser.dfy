/** The format parser as it runs: a cursor, counters, and two tables that grow in place. */
module FormatParser {
  import opened Integers
  import opened Xsize
  import opened Digits
  import opened FormatSyntax
  import opened FormatGrammar
  import opened ParserSpec

  /** realloc: a larger array that starts with the entries in use. What the new cells hold is not known. */
  method Reallocate<T>(a: array<T>, count: nat, capacity: nat, some: T) returns (memory: array<T>)
    requires count <= a.Length && count <= capacity
    ensures fresh(memory) && memory.Length == capacity && memory[..count] == a[..count]
  {
    memory := new T[capacity](_ => some);
    for i := 0 to count
      invariant memory[..i] == a[..i]
    {
      memory[i] := a[i];
    }
  }

  lemma NoOverflowNoWrap(capacity: Size, index: Size)
    requires !SizeOverflow(Xtimes(capacity, ARGUMENT_SIZE))
    requires capacity > index || capacity == Xsum(index, 1)
    ensures index < capacity
  {
  }

  /** arguments: count entries of the table are in use. */
  class Arguments {
    var count: nat
    var arg: array<ArgType>

    constructor ()
      ensures count == 0 && arg.Length == 7 && fresh(arg)
    {
      count := 0;
      arg := new ArgType[7];
    }

    ghost predicate Valid()
      reads this
    {
      count <= arg.Length <= SIZE_MAX
    }

    ghost function Contents(): Table
      requires Valid()
      reads this, arg
    {
      Table(arg[..count], arg.Length)
    }

    /** Room for an index; what the table holds is kept. */
    method Reserve(index: Size) returns (status: Result<()>)
      requires Valid()
      modifies this`arg
      ensures Valid() && (arg == old(arg) || fresh(arg))
      ensures arg[..count] == old(arg[..count])
      ensures status.Ok? || status.OutOfMemory?
      ensures
        status.OutOfMemory? <==>
          index >= old(arg.Length) && SizeOverflow(Xtimes(Grown(old(arg.Length), index), ARGUMENT_SIZE))
      ensures status.Ok? ==> arg.Length == Grown(old(arg.Length), index) && index < arg.Length
    {
      if index >= arg.Length {
        var capacity := Xtimes(arg.Length, 2);
        if capacity <= index {
          capacity := Xsum(index, 1);
        }
        var memorySize := Xtimes(capacity, ARGUMENT_SIZE);
        if SizeOverflow(memorySize) {
          return OutOfMemory;
        }
        NoOverflowNoWrap(capacity, index);
        arg := Reallocate(arg, count, capacity, TypeNone);
      }
      status := Ok(());
    }

    /** REGISTER_ARG: makes sure that the argument is in the table, and that it has one type. */
    method RegisterArg(index: Size, argType: ArgType) returns (status: Result<()>)
      requires Valid()
      modifies this, arg
      ensures Valid() && (arg == old(arg) || fresh(arg))
      ensures
        match Register(old(Contents()), index, argType)
        case Ok(t) => status.Ok? && Contents() == t
        case Invalid => status.Invalid?
        case OutOfMemory => status.OutOfMemory?
    {
      ghost var before := Contents();
      status := Reserve(index);
      if !status.Ok? {
        return;
      }
      while count <= index
        invariant count <= arg.Length && before.types <= arg[..count]
        invariant count <= Max(|before.types|, index + 1)
        invariant forall i :: |before.types| <= i < count ==> arg[i] == TypeNone
        invariant arg.Length == Grown(before.capacity, index) && (arg == old(arg) || fresh(arg))
      {
        arg[count] := TypeNone;
        count := count + 1;
      }
      assert arg[..count] == Extended(before.types, index);
      if arg[index] == TypeNone {
        arg[index] := argType;
        assert arg[..count] == Extended(before.types, index)[index := argType];
      } else if arg[index] != argType {
        status := Invalid;
      }
    }
  }

  lemma DoubledIsLarger(n: Size)
    requires n > 0 && !SizeOverflow(Xtimes(Xtimes(n, 2), DIRECTIVE_SIZE))
    ensures n < Xtimes(n, 2)
  {
  }

  /** char_directives: count directives, and after them one free slot. */
  class Directives {
    var count: nat
    var dir: array<Directive>
    var maxWidthLength: nat
    var maxPrecisionLength: nat

    constructor ()
      ensures count == 0 && dir.Length == 7 && fresh(dir)
    {
      count := 0;
      dir := new Directive[7](_ => Directive(0, 0, {}, 0, 0, ARG_NONE, 0, 0, ARG_NONE, '%', ARG_NONE));
      maxWidthLength, maxPrecisionLength := 0, 0;
    }

    ghost predicate Valid()
      reads this
    {
      count < dir.Length <= SIZE_MAX
    }

    /** Fills the free slot and makes sure that there is another one. */
    method Append(d: Directive) returns (status: Result<()>)
      requires Valid()
      modifies this, dir
      ensures dir == old(dir) || fresh(dir)
      ensures
        match DirectivesGrown(old(count) + 1, old(dir.Length))
        case Ok(capacity) => status.Ok? && Valid() && dir.Length == capacity && dir[..count] == old(dir[..count]) + [d]
        case Invalid => status.Invalid?
        case OutOfMemory => status.OutOfMemory?
    {
      ghost var before := dir[..count];
      dir[count] := d;
      count := count + 1;
      assert dir[..count] == before + [d];
      if count >= dir.Length {
        var capacity := Xtimes(dir.Length, 2);
        var memorySize := Xtimes(capacity, DIRECTIVE_SIZE);
        if SizeOverflow(memorySize) {
          return OutOfMemory;
        }
        DoubledIsLarger(dir.Length);
        dir := Reallocate(dir, count, capacity, d);
      }
      status := Ok(());
    }
  }

  // ---------- Reading the parts of a directive ----------

  lemma RestOf(s: string, i: nat)
    requires i < |s|
    ensures s[i..] != "" && s[i..][0] == s[i] && s[i..][1..] == s[i + 1..]
  {
  }

  lemma ReadOneMore(s: string, start: nat, i: nat)
    requires start <= i < |s|
    ensures s[start..i + 1] == s[start..i] + [s[i]]
  {
  }

  method SkipDigits(s: string, start: nat) returns (np: nat)
    requires start <= |s|
    ensures np == start + DigitRun(s[start..])
  {
    np := start;
    while IsDigit(CharAt(s, np))
      invariant start <= np <= |s|
      invariant np + DigitRun(s[np..]) == start + DigitRun(s[start..])
      decreases |s| - np
    {
      RestOf(s, np);
      np := np + 1;
    }
  }

  lemma DigitAppended(v: nat, d: nat)
    requires d < 10
    ensures Xsum(Xtimes(Saturate(v), 10), d) == Saturate(10 * v + d)
  {
    SaturatedProduct(v, 10);
  }

  /** The digit loop: the number, or SIZE_MAX if it is larger, however many digits there are. */
  method ReadNumber(s: string, start: nat, end: nat) returns (n: Size)
    requires start <= end <= |s| && forall i :: start <= i < end ==> IsDigit(s[i])
    ensures n == Saturate(NumberOf(s[start..end]))
  {
    n := 0;
    for np := start to end
      invariant n == Saturate(NumberOf(s[start..np]))
    {
      assert s[start..np + 1][..np - start] == s[start..np];
      DigitAppended(NumberOf(s[start..np]), DigitOf(s[np]));
      n := Xsum(Xtimes(n, 10), DigitOf(s[np]));
    }
  }

  /** Tests for a positional argument n$. */
  method ReadPosition(s: string, cp: nat) returns (p: Positional)
    requires cp <= |s|
    ensures p == ScanPosition(s[cp..])
  {
    p := NoPosition;
    if IsDigit(CharAt(s, cp)) {
      var np := SkipDigits(s, cp);
      if CharAt(s, np) == '$' {
        assert s[cp..][..np - cp] == s[cp..np];
        assert forall i :: cp <= i < np ==> s[i] == s[cp..][i - cp];
        var n := ReadNumber(s, cp, np);
        if n == 0 || SizeOverflow(n) {
          p := BadPosition;
        } else {
          p := Position(n - 1, np + 1 - cp);
        }
      }
    }
  }

  lemma {:induction false} FlagAppended(t: string, c: char)
    ensures FlagsIn(t + [c]) == FlagsIn(t) + FlagsIn([c])
  {
    assert FlagsIn([c]) == (match FlagOf(c) case Some(f) => {f} case None => {}) + FlagsIn([c][1..]);
    if t == "" {
      assert t + [c] == [c];
    } else {
      FlagAppended(t[1..], c);
      assert (t + [c])[1..] == t[1..] + [c];
    }
  }

  method ReadFlags(s: string, start: nat) returns (flags: set<Flag>, cp: nat)
    requires start <= |s|
    ensures cp == start + FlagRun(s[start..]) && flags == FlagsIn(s[start..cp])
  {
    flags, cp := {}, start;
    while true
      invariant start <= cp <= |s|
      invariant cp + FlagRun(s[cp..]) == start + FlagRun(s[start..])
      invariant flags == FlagsIn(s[start..cp])
      decreases |s| - cp
    {
      var c := CharAt(s, cp);
      if c == '\'' {
        flags := flags + {Group};
      } else if c == '-' {
        flags := flags + {Left};
      } else if c == '+' {
        flags := flags + {ShowSign};
      } else if c == ' ' {
        flags := flags + {Space};
      } else if c == '#' {
        flags := flags + {Alt};
      } else if c == '0' {
        flags := flags + {Zero};
      } else if c == 'I' {
        flags := flags + {Localized};
      } else {
        return;
      }
      RestOf(s, cp);
      ReadOneMore(s, start, cp);
      FlagAppended(s[start..cp], c);
      cp := cp + 1;
    }
  }

  lemma NoSizeFlags(t: string)
    requires t == ""
    ensures SizeFlags(t, 0) == 0
  {
  }

  lemma {:induction false} SizeAppended(t: string, c: char, flags: nat)
    requires forall i :: 0 <= i < |t| ==> IsSizeModifier(t[i])
    requires IsSizeModifier(c)
    ensures SizeStep(c, SizeFlags(t, flags)).Some? && SizeFlags(t + [c], flags) == SizeStep(c, SizeFlags(t, flags)).value
  {
    if t == "" {
      assert t + [c] == [c] && [c][1..] == "";
      assert SizeFlags([c][1..], SizeStep(c, flags).value) == SizeStep(c, flags).value;
    } else {
      SizeAppended(t[1..], c, SizeStep(t[0], flags).value);
      assert (t + [c])[1..] == t[1..] + [c];
    }
  }

  method ReadSize(s: string, start: nat) returns (flags: nat, cp: nat)
    requires start <= |s|
    ensures cp == start + SizeRun(s[start..]) && flags == SizeFlags(s[start..cp], 0)
  {
    hide SizeFlags, BitOf;
    flags, cp := 0, start;
    NoSizeFlags(s[start..cp]);
    while true
      invariant start <= cp <= |s|
      invariant cp + SizeRun(s[cp..]) == start + SizeRun(s[start..])
      invariant flags == SizeFlags(s[start..cp], 0)
      invariant forall i :: start <= i < cp ==> IsSizeModifier(s[i])
      decreases |s| - cp
    {
      var c := CharAt(s, cp);
      ghost var before := flags;
      if c == 'h' {
        flags := SetBit(flags, if BitOf(flags, 1) then 2 else 1);
      } else if c == 'L' {
        flags := SetBit(flags, 4);
      } else if c == 'l' {
        flags := flags + 8;
      } else if c == 'j' {
        flags := flags + 8;
      } else if c == 'z' || c == 'Z' {
        flags := flags + 8;
      } else if c == 't' {
        flags := flags + 8;
      } else {
        return;
      }
      RestOf(s, cp);
      ReadOneMore(s, start, cp);
      SizeAppended(s[start..cp], c, 0);
      cp := cp + 1;
    }
  }

  // ---------- A directive ----------

  /** The parser's variables that outlive a directive, beside the argument table. */
  class Counters {
    var argPosn: Size
    var maxWidthLength: nat
    var maxPrecisionLength: nat

    constructor ()
      ensures argPosn == 0 && maxWidthLength == 0 && maxPrecisionLength == 0
    {
      argPosn, maxWidthLength, maxPrecisionLength := 0, 0, 0;
    }
  }

  ghost function StateOf(a: Arguments, k: Counters): State
    requires a.Valid()
    reads a, a.arg, k
  {
    State(a.Contents(), k.argPosn, k.maxWidthLength, k.maxPrecisionLength)
  }

  /** The next argument without a position. */
  method TakeNext(k: Counters) returns (index: Size, status: Result<()>)
    modifies k`argPosn
    ensures
      match NextArg(old(k.argPosn))
      case Ok(i) => status.Ok? && index == i && k.argPosn == old(k.argPosn) + 1
      case Invalid => status.Invalid?
      case OutOfMemory => status.OutOfMemory?
  {
    index := k.argPosn;
    if index == ARG_NONE {
      status := Invalid;
    } else {
      k.argPosn := k.argPosn + 1;
      status := Ok(());
    }
  }

  /** The argument of a star in a width or precision. */
  method TakeStar(position: Positional, length: nat, a: Arguments, k: Counters) returns (index: Size, status: Result<()>)
    requires a.Valid() && !position.BadPosition?
    modifies a, a.arg, k`argPosn
    ensures a.Valid() && (a.arg == old(a.arg) || fresh(a.arg))
    ensures
      match RegisterStar(Star(length, position), old(StateOf(a, k)))
      case Ok((i, st)) => status.Ok? && index == i && StateOf(a, k) == st
      case Invalid => status.Invalid?
      case OutOfMemory => status.OutOfMemory?
  {
    if position.Position? {
      index := position.index;
    } else {
      index, status := TakeNext(k);
      if !status.Ok? {
        return;
      }
    }
    status := a.RegisterArg(index, TypeInt);
  }

  /** Reads a width: a star, digits, or nothing. */
  method ReadWidth(s: string, cp: nat, a: Arguments, k: Counters)
    returns (f: Field, index: Size, status: Result<()>)
    requires cp <= |s| && a.Valid()
    modifies a, a.arg, k`argPosn, k`maxWidthLength
    ensures a.Valid() && (a.arg == old(a.arg) || fresh(a.arg))
    ensures f == ScanWidth(s[cp..])
    ensures
      var st := old(StateOf(a, k));
      match RegisterStar(f, st.(maxWidth := Max(st.maxWidth, f.TextLength())))
      case Ok((i, st')) => status.Ok? && index == i && StateOf(a, k) == st'
      case Invalid => status.Invalid?
      case OutOfMemory => status.OutOfMemory?
  {
    f, index, status := NoField, ARG_NONE, Ok(());
    if CharAt(s, cp) == '*' {
      if k.maxWidthLength < 1 {
        k.maxWidthLength := 1;
      }
      RestOf(s, cp);
      var position := ReadPosition(s, cp + 1);
      f := Star(1, position);
      if position.BadPosition? {
        status := Invalid;
      } else {
        index, status := TakeStar(position, 1, a, k);
      }
    } else if IsDigit(CharAt(s, cp)) {
      var end := SkipDigits(s, cp);
      f := Literal(end - cp);
      if k.maxWidthLength < end - cp {
        k.maxWidthLength := end - cp;
      }
    }
  }

  /** Reads a precision: a point and a star or digits, or nothing. */
  method ReadPrecision(s: string, cp: nat, a: Arguments, k: Counters)
    returns (f: Field, index: Size, status: Result<()>)
    requires cp <= |s| && a.Valid()
    modifies a, a.arg, k`argPosn, k`maxPrecisionLength
    ensures a.Valid() && (a.arg == old(a.arg) || fresh(a.arg))
    ensures f == ScanPrecision(s[cp..])
    ensures
      var st := old(StateOf(a, k));
      match RegisterStar(f, st.(maxPrecision := Max(st.maxPrecision, f.TextLength())))
      case Ok((i, st')) => status.Ok? && index == i && StateOf(a, k) == st'
      case Invalid => status.Invalid?
      case OutOfMemory => status.OutOfMemory?
  {
    f, index, status := NoField, ARG_NONE, Ok(());
    if CharAt(s, cp) == '.' {
      RestOf(s, cp);
      assert CharAt(s[cp..], 1) == CharAt(s, cp + 1);
      if CharAt(s, cp + 1) == '*' {
        if k.maxPrecisionLength < 2 {
          k.maxPrecisionLength := 2;
        }
        assert s[cp..][2..] == s[cp + 2..];
        var position := ReadPosition(s, cp + 2);
        f := Star(2, position);
        if position.BadPosition? {
          status := Invalid;
        } else {
          index, status := TakeStar(position, 2, a, k);
        }
      } else {
        var end := SkipDigits(s, cp + 1);
        f := Literal(end - cp);
        if k.maxPrecisionLength < end - cp {
          k.maxPrecisionLength := end - cp;
        }
      }
    }
  }

  /** The argument of the conversion. */
  method TakeConversion(position: Positional, argType: ArgType, a: Arguments, k: Counters)
    returns (index: Size, status: Result<()>)
    requires a.Valid() && !position.BadPosition?
    modifies a, a.arg, k`argPosn
    ensures a.Valid() && (a.arg == old(a.arg) || fresh(a.arg))
    ensures
      match RegisterConversion(position, argType, old(StateOf(a, k)))
      case Ok((i, st)) => status.Ok? && index == i && StateOf(a, k) == st
      case Invalid => status.Invalid?
      case OutOfMemory => status.OutOfMemory?
  {
    index, status := ARG_NONE, Ok(());
    if argType != TypeNone {
      if position.Position? {
        index := position.index;
      } else {
        index, status := TakeNext(k);
        if !status.Ok? {
          return;
        }
      }
      status := a.RegisterArg(index, argType);
    }
  }

  lemma SliceOfRest(s: string, cp: nat, lo: nat, hi: nat)
    requires cp <= |s| && lo <= hi <= |s| - cp
    ensures s[cp..][lo..] == s[cp + lo..] && s[cp..][lo..hi] == s[cp + lo..cp + hi]
  {
  }

  /** Cutting the rest of a text into parts, by positions in the whole text. */
  lemma PartsAt(s: string, cp: nat)
    requires cp <= |s|
    ensures
      var p := ScanParts(s[cp..]);
      && p.position == ScanPosition(s[cp..])
      && p.flagsAt == (if p.position.Position? then p.position.length else 0)
      && p.widthAt == p.flagsAt + FlagRun(s[cp + p.flagsAt..])
      && p.flags == FlagsIn(s[cp + p.flagsAt..cp + p.widthAt])
      && p.width == ScanWidth(s[cp + p.widthAt..])
      && p.precision == ScanPrecision(s[cp + p.precisionAt..])
      && p.letterAt == p.sizeAt + SizeRun(s[cp + p.sizeAt..])
      && p.sizeFlags == SizeFlags(s[cp + p.sizeAt..cp + p.letterAt], 0)
  {
    hide FlagsIn, FlagRun, SizeRun, SizeFlags, ScanPosition, ScanWidth, ScanPrecision, FlagOf, CharAt, IsSizeModifier, ScanParts;
    var p := ScanParts(s[cp..]);
    PartsFound(s[cp..]);
    SliceOfRest(s, cp, p.flagsAt, p.widthAt);
    SliceOfRest(s, cp, p.widthAt, p.precisionAt);
    SliceOfRest(s, cp, p.precisionAt, p.sizeAt);
    SliceOfRest(s, cp, p.sizeAt, p.letterAt);
  }

  /** The parts of the directive at a % sign, cut out one after the other while their arguments are registered. */
  method ReadFields(s: string, cp: nat, a: Arguments, k: Counters)
    returns (p: Parts, widthArg: Size, precisionArg: Size, status: Result<()>)
    requires cp <= |s| && a.Valid()
    modifies a, a.arg, k
    ensures a.Valid() && (a.arg == old(a.arg) || fresh(a.arg))
    ensures p == ScanParts(s[cp..]) || status.IsFailure()
    ensures
      var parts, st := ScanParts(s[cp..]), old(StateOf(a, k));
      if parts.position.BadPosition? then status.Invalid?
      else
        match RegisterFields(parts, st)
        case Ok((w, q, st')) => status.Ok? && widthArg == w && precisionArg == q && StateOf(a, k) == st'
        case Invalid => status.Invalid?
        case OutOfMemory => status.OutOfMemory?
  {
    hide ScanParts, FlagsIn, FlagRun, SizeRun, SizeFlags, ScanPosition, ScanWidth, ScanPrecision, RegisterStar,
      FlagOf, CharAt, IsSizeModifier;
    PartsAt(s, cp);
    widthArg, precisionArg := ARG_NONE, ARG_NONE;
    p := Parts(NoPosition, 0, {}, 0, NoField, 0, NoField, 0, 0, 0);
    var position := ReadPosition(s, cp);
    if position.BadPosition? {
      status := Invalid;
      return;
    }
    var at := cp + if position.Position? then position.length else 0;
    var flags, widthAt := ReadFlags(s, at);
    var width, precision;
    width, widthArg, status := ReadWidth(s, widthAt, a, k);
    if status.IsFailure() {
      return;
    }
    var precisionAt := widthAt + width.Extent();
    precision, precisionArg, status := ReadPrecision(s, precisionAt, a, k);
    if status.IsFailure() {
      return;
    }
    var sizeAt := precisionAt + precision.Extent();
    var sizeFlags, letterAt := ReadSize(s, sizeAt);
    p := Parts(position, at - cp, flags, widthAt - cp, width, precisionAt - cp, precision,
               sizeAt - cp, letterAt - cp, sizeFlags);
  }

  /** The directive at a % sign. */
  method ReadDirective(s: string, start: nat, a: Arguments, k: Counters) returns (d: Directive, status: Result<()>)
    requires start < |s| && a.Valid()
    modifies a, a.arg, k
    ensures a.Valid() && (a.arg == old(a.arg) || fresh(a.arg))
    ensures
      match ParseDirective(s, start, old(StateOf(a, k)))
      case Ok((d', st)) => status.Ok? && d == d' && StateOf(a, k) == st
      case Invalid => status.Invalid?
      case OutOfMemory => status.OutOfMemory?
  {
    var cp := start + 1;
    var p, widthArg, precisionArg;
    d := Directive(start, cp, {}, 0, 0, ARG_NONE, 0, 0, ARG_NONE, '%', ARG_NONE);
    p, widthArg, precisionArg, status := ReadFields(s, cp, a, k);
    if status.IsFailure() {
      return;
    }
    var conversion := ConversionOf(CharAt(s, cp + p.letterAt), p.sizeFlags);
    assert CharAt(s[cp..], p.letterAt) == CharAt(s, cp + p.letterAt);
    if conversion.None? {
      status := Invalid;
      return;
    }
    var arg;
    arg, status := TakeConversion(p.position, conversion.value.argType, a, k);
    if status.IsFailure() {
      return;
    }
    d := MakeDirective(start, p, widthArg, precisionArg, conversion.value.letter, arg);
  }

  // ---------- The whole format ----------

  lemma EndStep(s: string, dirs: seq<Directive>, capacity: Size, st: State)
    ensures ParseFrom(s, |s|, dirs, capacity, st) == Ok(Parsed(dirs, st))
  {
  }

  lemma LiteralStep(s: string, i: nat, dirs: seq<Directive>, capacity: Size, st: State)
    requires i < |s| && s[i] != '%'
    ensures ParseFrom(s, i, dirs, capacity, st) == ParseFrom(s, i + 1, dirs, capacity, st)
  {
  }

  lemma DirectiveStep(s: string, i: nat, dirs: seq<Directive>, capacity: Size, st: State)
    requires i < |s| && s[i] == '%'
    ensures
      match ParseDirective(s, i, st)
      case Invalid => ParseFrom(s, i, dirs, capacity, st).Invalid?
      case OutOfMemory => ParseFrom(s, i, dirs, capacity, st).OutOfMemory?
      case Ok((d, st')) =>
        match DirectivesGrown(|dirs| + 1, capacity)
        case Invalid => ParseFrom(s, i, dirs, capacity, st).Invalid?
        case OutOfMemory => ParseFrom(s, i, dirs, capacity, st).OutOfMemory?
        case Ok(capacity') =>
          ParseFrom(s, i, dirs, capacity, st) == ParseFrom(s, d.dirEnd, dirs + [d], capacity', st')
  {
    hide ParseDirective, DirectivesGrown;
  }

  /** Reads the directive at a % sign into the free slot of the directive table. */
  method ReadAndStore(s: string, start: nat, d: Directives, a: Arguments, k: Counters) returns (end: nat, status: Result<()>)
    requires start < |s| && s[start] == '%' && d.Valid() && a.Valid() && d.dir as object != a.arg as object
    modifies d, d.dir, a, a.arg, k
    ensures (d.dir == old(d.dir) || fresh(d.dir)) && (a.arg == old(a.arg) || fresh(a.arg)) && d.dir as object != a.arg as object
    ensures
      var was := old(ParseFrom(s, start, d.dir[..d.count], d.dir.Length, StateOf(a, k)));
      && (status.Ok? ==>
            && start < end <= |s| && d.Valid() && a.Valid()
            && was == ParseFrom(s, end, d.dir[..d.count], d.dir.Length, StateOf(a, k)))
      && (status.Invalid? ==> was.Invalid?)
      && (status.OutOfMemory? ==> was.OutOfMemory?)
  {
    hide ParseDirective, ParseFrom, DirectivesGrown;
    DirectiveStep(s, start, d.dir[..d.count], d.dir.Length, StateOf(a, k));
    var directive;
    end := start;
    directive, status := ReadDirective(s, start, a, k);
    if status.IsFailure() {
      return;
    }
    label Stored:
    status := d.Append(directive);
    assert StateOf(a, k) == old@Stored(StateOf(a, k));
    end := directive.dirEnd;
  }

  /**
   PRINTF_PARSE. Fills the directive table, stores the end of the format in the slot after the last directive,
   and fills the argument table with types. The format must not contain NUL.
   */
  method PrintfParse(s: string, d: Directives, a: Arguments) returns (status: Result<()>)
    requires '\0' !in s
    modifies d, d.dir, a, a.arg
    ensures
      match Parse(s)
      case Ok(p) =>
        && status.Ok? && d.Valid() && a.Valid()
        && d.dir[..d.count] == p.dirs && d.dir[d.count].dirStart == |s|
        && a.Contents() == p.st.args
        && d.maxWidthLength == p.st.maxWidth && d.maxPrecisionLength == p.st.maxPrecision
      case Invalid => status.Invalid?
      case OutOfMemory => status.OutOfMemory?
  {
    hide ParseDirective, ParseFrom, DirectivesGrown;
    d.count := 0;
    d.dir := new Directive[7](_ => Directive(0, 0, {}, 0, 0, ARG_NONE, 0, 0, ARG_NONE, '%', ARG_NONE));
    a.count := 0;
    a.arg := new ArgType[7];
    var k := new Counters();
    var cp := 0;
    assert forall i :: 0 <= i < |s| ==> s[i] != '\0';
    while CharAt(s, cp) != '\0'
      invariant cp <= |s| && d.Valid() && a.Valid() && fresh(d.dir) && fresh(a.arg)
      invariant d.dir as object != a.arg as object
      invariant ParseFrom(s, cp, d.dir[..d.count], d.dir.Length, StateOf(a, k)) == Parse(s)
      decreases |s| - cp
    {
      if s[cp] == '%' {
        cp, status := ReadAndStore(s, cp, d, a, k);
        if status.IsFailure() {
          return;
        }
      } else {
        LiteralStep(s, cp, d.dir[..d.count], d.dir.Length, StateOf(a, k));
        cp := cp + 1;
      }
    }
    EndStep(s, d.dir[..d.count], d.dir.Length, StateOf(a, k));
    d.dir[d.count] := d.dir[d.count].(dirStart := cp);
    d.maxWidthLength, d.maxPrecisionLength := k.maxWidthLength, k.maxPrecisionLength;
    status := Ok(());
  }
}
