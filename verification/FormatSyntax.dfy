/** The syntax of a format directive: how far each of its parts extends, and what type of argument it asks for. */
module FormatSyntax {
  import opened Xsize
  import opened Digits

  datatype Option<T> = None | Some(value: T)

  datatype Flag = Group | Left | ShowSign | Space | Alt | Zero | Localized

  datatype ArgType =
    | TypeNone
    | TypeSChar | TypeUChar | TypeShort | TypeUShort | TypeInt | TypeUInt
    | TypeLongInt | TypeULongInt | TypeLongLongInt | TypeULongLongInt
    | TypeDouble | TypeLongDouble
    | TypeChar | TypeWideChar | TypeString | TypeWideString | TypePointer
    | TypeCountSChar | TypeCountShort | TypeCountInt | TypeCountLongInt | TypeCountLongLongInt

  /** The character at a position; NUL at the end. */
  function CharAt(s: string, i: nat): char {
    if i < |s| then s[i] else '\0'
  }

  // ---------- Numbers ----------

  /** The number of digits at the start of a text. */
  function DigitRun(s: string): (n: nat)
    ensures n <= |s| && (forall i :: 0 <= i < n ==> IsDigit(s[i])) && !IsDigit(CharAt(s, n))
  {
    if s != "" && IsDigit(s[0]) then 1 + DigitRun(s[1..]) else 0
  }

  lemma {:induction false} DigitsThen(a: string, b: string)
    requires (forall i :: 0 <= i < |a| ==> IsDigit(a[i])) && !IsDigit(CharAt(b, 0))
    ensures DigitRun(a + b) == |a|
  {
    if a == "" {
      assert a + b == b;
    } else {
      DigitsThen(a[1..], b);
      assert (a + b)[1..] == a[1..] + b;
    }
  }

  /** A position n$ in a directive counts the arguments from one. */
  datatype Positional = NoPosition | BadPosition | Position(index: Size, length: nat)

  /** A position is rejected if it is zero, or too large to count. */
  function ScanPosition(s: string): (p: Positional)
    ensures p.Position? ==> 0 < p.length <= |s| && p.index < SIZE_MAX - 1
  {
    var n := DigitRun(s);
    if n > 0 && CharAt(s, n) == '$' then
      var value := Saturate(NumberOf(s[..n]));
      if value == 0 || SizeOverflow(value) then BadPosition else Position(value - 1, n + 1)
    else NoPosition
  }

  // ---------- Flags ----------

  function FlagOf(c: char): Option<Flag> {
    match c
    case '\'' => Some(Group)
    case '-' => Some(Left)
    case '+' => Some(ShowSign)
    case ' ' => Some(Space)
    case '#' => Some(Alt)
    case '0' => Some(Zero)
    case 'I' => Some(Localized)
    case _ => None
  }

  /** The number of flags at the start of a text. */
  function FlagRun(s: string): (n: nat)
    ensures n <= |s| && FlagOf(CharAt(s, n)).None?
  {
    if s != "" && FlagOf(s[0]).Some? then 1 + FlagRun(s[1..]) else 0
  }

  /** The flags in a text. */
  function FlagsIn(s: string): set<Flag> {
    if s == "" then {}
    else (match FlagOf(s[0]) case Some(f) => {f} case None => {}) + FlagsIn(s[1..])
  }

  // ---------- Width and precision ----------

  /** A width or a precision: absent, digits, or a star with the position of its argument. */
  datatype Field = NoField | Literal(length: nat) | Star(length: nat, position: Positional)
  {
    /** How long the part is that the directive keeps: the position after a star is not kept. */
    function TextLength(): nat {
      match this
      case NoField => 0
      case Literal(n) => n
      case Star(n, _) => n
    }

    /** How long the whole part is. */
    function Extent(): nat {
      match this
      case NoField => 0
      case Literal(n) => n
      case Star(n, p) => n + if p.Position? then p.length else 0
    }
  }

  function ScanWidth(s: string): (f: Field)
    ensures f.Extent() <= |s| && f.TextLength() <= f.Extent()
    ensures f.Star? && f.position.Position? ==> f.position.index < SIZE_MAX - 1
  {
    if CharAt(s, 0) == '*' then Star(1, ScanPosition(s[1..]))
    else if IsDigit(CharAt(s, 0)) then Literal(DigitRun(s))
    else NoField
  }

  /** The text of a precision includes its point. */
  function ScanPrecision(s: string): (f: Field)
    ensures f.Extent() <= |s| && f.TextLength() <= f.Extent()
    ensures f.Star? && f.position.Position? ==> f.position.index < SIZE_MAX - 1
  {
    if CharAt(s, 0) == '.' then
      if CharAt(s, 1) == '*' then Star(2, ScanPosition(s[2..]))
      else Literal(1 + DigitRun(s[1..]))
    else NoField
  }

  // ---------- Size and conversion ----------

  function BitOf(x: nat, bit: nat): bool
    requires bit > 0
  {
    (x / bit) % 2 == 1
  }

  /** The bit-or of x with a power of two. */
  function SetBit(x: nat, bit: nat): nat
    requires bit > 0
  {
    if BitOf(x, bit) then x else x + bit
  }

  /**
   The effect of one size modifier; h, hh and L set bits, the others count by eight.
   long, intmax_t, size_t and ptrdiff_t are all 64 bits wide and int is 32 bits wide.
   */
  function SizeStep(c: char, flags: nat): Option<nat> {
    match c
    case 'h' => Some(SetBit(flags, if BitOf(flags, 1) then 2 else 1))
    case 'L' => Some(SetBit(flags, 4))
    case 'l' => Some(flags + 8)
    case 'j' => Some(flags + 8)
    case 'z' => Some(flags + 8)
    case 'Z' => Some(flags + 8)
    case 't' => Some(flags + 8)
    case _ => None
  }

  predicate IsSizeModifier(c: char) {
    c in "hLljzZt"
  }

  function SizeRun(s: string): (n: nat)
    ensures n <= |s| && !IsSizeModifier(CharAt(s, n))
  {
    if s != "" && IsSizeModifier(s[0]) then 1 + SizeRun(s[1..]) else 0
  }

  /** The size flags after all modifiers of a text. */
  function SizeFlags(s: string, flags: nat): nat {
    if s == "" then flags
    else
      match SizeStep(s[0], flags)
      case Some(f) => SizeFlags(s[1..], f)
      case None => flags
  }

  datatype Conversion = Conversion(argType: ArgType, letter: char)

  function SignedType(flags: nat): ArgType {
    if flags >= 16 || BitOf(flags, 4) then TypeLongLongInt
    else if flags >= 8 then TypeLongInt
    else if BitOf(flags, 2) then TypeSChar
    else if BitOf(flags, 1) then TypeShort
    else TypeInt
  }

  function UnsignedType(flags: nat): ArgType {
    if flags >= 16 || BitOf(flags, 4) then TypeULongLongInt
    else if flags >= 8 then TypeULongInt
    else if BitOf(flags, 2) then TypeUChar
    else if BitOf(flags, 1) then TypeUShort
    else TypeUInt
  }

  function CountType(flags: nat): ArgType {
    if flags >= 16 || BitOf(flags, 4) then TypeCountLongLongInt
    else if flags >= 8 then TypeCountLongInt
    else if BitOf(flags, 2) then TypeCountSChar
    else if BitOf(flags, 1) then TypeCountShort
    else TypeCountInt
  }

  /** What argument a conversion takes; C and S are lc and ls. */
  function ConversionOf(c: char, flags: nat): (r: Option<Conversion>)
    ensures r.Some? ==> c != '\0'
  {
    var longLong := flags >= 16 || BitOf(flags, 4);
    match c
    case 'd' => Some(Conversion(SignedType(flags), c))
    case 'i' => Some(Conversion(SignedType(flags), c))
    case 'o' => Some(Conversion(UnsignedType(flags), c))
    case 'u' => Some(Conversion(UnsignedType(flags), c))
    case 'x' => Some(Conversion(UnsignedType(flags), c))
    case 'X' => Some(Conversion(UnsignedType(flags), c))
    case 'f' => Some(Conversion(if longLong then TypeLongDouble else TypeDouble, c))
    case 'F' => Some(Conversion(if longLong then TypeLongDouble else TypeDouble, c))
    case 'e' => Some(Conversion(if longLong then TypeLongDouble else TypeDouble, c))
    case 'E' => Some(Conversion(if longLong then TypeLongDouble else TypeDouble, c))
    case 'g' => Some(Conversion(if longLong then TypeLongDouble else TypeDouble, c))
    case 'G' => Some(Conversion(if longLong then TypeLongDouble else TypeDouble, c))
    case 'a' => Some(Conversion(if longLong then TypeLongDouble else TypeDouble, c))
    case 'A' => Some(Conversion(if longLong then TypeLongDouble else TypeDouble, c))
    case 'c' => Some(Conversion(if flags >= 8 then TypeWideChar else TypeChar, c))
    case 'C' => Some(Conversion(TypeWideChar, 'c'))
    case 's' => Some(Conversion(if flags >= 8 then TypeWideString else TypeString, c))
    case 'S' => Some(Conversion(TypeWideString, 's'))
    case 'p' => Some(Conversion(TypePointer, c))
    case 'n' => Some(Conversion(CountType(flags), c))
    case '%' => Some(Conversion(TypeNone, c))
    case _ => None
  }

  // ---------- A whole directive ----------

  /** The parts of a directive, each with the offset at which it starts. */
  datatype Parts = Parts(
    position: Positional,
    flagsAt: nat, flags: set<Flag>,
    widthAt: nat, width: Field,
    precisionAt: nat, precision: Field,
    sizeAt: nat, letterAt: nat, sizeFlags: nat)

  /** Cuts a text that follows a % sign into parts. */
  function ScanParts(s: string): (p: Parts)
    ensures p.position.Position? ==> p.position.index < SIZE_MAX - 1
    ensures p.width.Star? && p.width.position.Position? ==> p.width.position.index < SIZE_MAX - 1
    ensures p.precision.Star? && p.precision.position.Position? ==> p.precision.position.index < SIZE_MAX - 1
    ensures p.flagsAt <= p.widthAt <= p.precisionAt <= p.sizeAt <= p.letterAt <= |s|
    ensures p.precisionAt == p.widthAt + p.width.Extent() && p.sizeAt == p.precisionAt + p.precision.Extent()
  {
    var position := ScanPosition(s);
    var flagsAt := if position.Position? then position.length else 0;
    var widthAt := flagsAt + FlagRun(s[flagsAt..]);
    var width := ScanWidth(s[widthAt..]);
    var precisionAt := widthAt + width.Extent();
    var precision := ScanPrecision(s[precisionAt..]);
    var sizeAt := precisionAt + precision.Extent();
    var letterAt := sizeAt + SizeRun(s[sizeAt..]);
    Parts(position, flagsAt, FlagsIn(s[flagsAt..widthAt]), widthAt, width, precisionAt, precision,
          sizeAt, letterAt, SizeFlags(s[sizeAt..letterAt], 0))
  }
}
