/** The directives that a format may contain, as a grammar, and that scanning a directive is reading by this grammar. */
module FormatGrammar {
  import opened Xsize
  import opened Digits
  import opened FormatSyntax

  // ---------- The grammar ----------

  predicate IsConversionLetter(c: char) {
    c in {'d', 'i', 'o', 'u', 'x', 'X', 'f', 'F', 'e', 'E', 'g', 'G', 'a', 'A', 'c', 'C', 's', 'S', 'p', 'n', '%'}
  }

  /** n$ with n from one up to the largest number that a size can tell from an overflow. */
  ghost predicate IsPosition(t: string) {
    && |t| > 1 && t[|t| - 1] == '$'
    && AllDigits(t[..|t| - 1]) && 0 < NumberOf(t[..|t| - 1]) < SIZE_MAX
  }

  /** A width text is empty, or a star, or digits that do not start with a zero. */
  ghost predicate IsWidthText(t: string) {
    t != "" ==> t == "*" || (t[0] != '0' && AllDigits(t))
  }

  /** A precision text is empty, or a point with a star or with digits. */
  ghost predicate IsPrecisionText(t: string) {
    t != "" ==> t[0] == '.' && (t == ".*" || AllDigits(t[1..]))
  }

  /** What follows the % sign, cut into pieces. */
  datatype Pieces = Pieces(position: string, flags: string, width: string, widthPosition: string,
                           precision: string, precisionPosition: string, modifiers: string, letter: char)
  {
    ghost predicate WellFormed() {
      && (position == "" || IsPosition(position))
      && (forall i :: 0 <= i < |flags| ==> flags[i] in "'-+ #0I")
      && IsWidthText(width) && (widthPosition == "" || (width == "*" && IsPosition(widthPosition)))
      && IsPrecisionText(precision) && (precisionPosition == "" || (precision == ".*" && IsPosition(precisionPosition)))
      && (forall i :: 0 <= i < |modifiers| ==> modifiers[i] in "hLljzZt")
      && IsConversionLetter(letter)
    }

    /** The pieces in order, and what comes after them. */
    function Before(rest: string): string {
      position + (flags + (width + widthPosition + (precision + precisionPosition + (modifiers + ([letter] + rest)))))
    }
  }

  // ---------- Reading the pieces ----------

  lemma NoPositionHere(a: string, b: string)
    requires '$' !in a && CharAt(b, 0) != '$' && !IsDigit(CharAt(b, 0))
    ensures ScanPosition(a + b) == NoPosition
  {
    var n := DigitRun(a + b);
    assert CharAt(a + b, |a|) == CharAt(b, 0);
    if n < |a| {
      assert (a + b)[n] == a[n];
    } else {
      assert CharAt(a + b, n) == CharAt(b, 0);
    }
  }

  lemma PositionRead(t: string, rest: string)
    requires IsPosition(t)
    ensures ScanPosition(t + rest) == Position(NumberOf(t[..|t| - 1]) - 1, |t|)
  {
    hide NumberOf;
    var n := |t| - 1;
    assert t + rest == t[..n] + ("$" + rest);
    DigitsThen(t[..n], "$" + rest);
    assert (t + rest)[..n] == t[..n];
  }

  /** What a text that may be a position is read as. */
  ghost function PositionOf(t: string): Positional
    requires t == "" || IsPosition(t)
  {
    if t == "" then NoPosition else Position(NumberOf(t[..|t| - 1]) - 1, |t|)
  }

  lemma PositionLength(t: string)
    requires t == "" || IsPosition(t)
    ensures if t == "" then PositionOf(t) == NoPosition else PositionOf(t).Position? && PositionOf(t).length == |t|
  {
    hide NumberOf;
  }

  lemma PositionIs(t: string)
    requires IsPosition(t)
    ensures PositionOf(t) == Position(NumberOf(t[..|t| - 1]) - 1, |t|)
  {
  }

  lemma PositionOrNone(t: string, rest: string)
    requires t == "" || IsPosition(t)
    requires CharAt(rest, 0) != '$' && !IsDigit(CharAt(rest, 0))
    ensures ScanPosition(t + rest) == PositionOf(t)
  {
    hide ScanPosition, IsPosition;
    if t == "" {
      NoPositionHere("", rest);
    } else {
      PositionRead(t, rest);
    }
  }

  ghost function WidthField(width: string, position: string): Field
    requires position == "" || IsPosition(position)
  {
    if width == "" then NoField else if width == "*" then Star(1, PositionOf(position)) else Literal(|width|)
  }

  ghost function PrecisionField(precision: string, position: string): Field
    requires position == "" || IsPosition(position)
  {
    if precision == "" then NoField else if precision == ".*" then Star(2, PositionOf(position)) else Literal(|precision|)
  }

  /** A character that belongs to none of the parts before the size modifiers. */
  predicate Plain(c: char) {
    FlagOf(c).None? && !IsDigit(c) && c != '*' && c != '.' && c != '$'
  }

  lemma WidthRead(width: string, position: string, rest: string)
    requires IsWidthText(width) && (position == "" || (width == "*" && IsPosition(position)))
    requires Plain(CharAt(rest, 0)) || CharAt(rest, 0) == '.'
    ensures ScanWidth(width + position + rest) == WidthField(width, position)
    ensures WidthField(width, position).Extent() == |width| + |position|
  {
    hide ScanPosition, IsPosition, FlagOf;
    var t := width + position + rest;
    if width == "*" {
      PositionOrNone(position, rest);
      assert t[1..] == position + rest;
    } else {
      assert t == width + rest;
      DigitsThen(width, rest);
    }
  }

  lemma PrecisionRead(precision: string, position: string, rest: string)
    requires IsPrecisionText(precision) && (position == "" || (precision == ".*" && IsPosition(position)))
    requires Plain(CharAt(rest, 0))
    ensures ScanPrecision(precision + position + rest) == PrecisionField(precision, position)
    ensures PrecisionField(precision, position).Extent() == |precision| + |position|
  {
    hide ScanPosition, IsPosition, FlagOf;
    var t := precision + position + rest;
    if precision == "" {
      assert t == rest;
    } else if precision == ".*" {
      PositionOrNone(position, rest);
      assert t[2..] == position + rest;
    } else {
      DigitsThen(precision[1..], rest);
      assert t[1..] == precision[1..] + rest;
    }
  }

  lemma {:induction false} FlagsThen(a: string, b: string)
    requires (forall i :: 0 <= i < |a| ==> a[i] in "'-+ #0I") && FlagOf(CharAt(b, 0)).None?
    ensures FlagRun(a + b) == |a|
  {
    if a == "" {
      assert a + b == b;
    } else {
      FlagsThen(a[1..], b);
      assert (a + b)[1..] == a[1..] + b;
    }
  }

  lemma {:induction false} SizesThen(a: string, b: string)
    requires (forall i :: 0 <= i < |a| ==> a[i] in "hLljzZt") && !IsSizeModifier(CharAt(b, 0))
    ensures SizeRun(a + b) == |a|
  {
    if a == "" {
      assert a + b == b;
    } else {
      SizesThen(a[1..], b);
      assert (a + b)[1..] == a[1..] + b;
    }
  }

  lemma NoFlag(c: char)
    requires c !in {'\'', '-', '+', ' ', '#', '0', 'I'}
    ensures FlagOf(c).None?
  {
  }

  lemma LetterIsPlain(letter: char)
    requires IsConversionLetter(letter)
    ensures Plain(letter) && !IsSizeModifier(letter)
  {
    hide FlagOf;
    NoFlag(letter);
  }

  /** Where scanning finds the pieces. */
  ghost function PartsOf(g: Pieces): Parts
    requires g.WellFormed()
  {
    var flagsAt := |g.position|;
    var widthAt := flagsAt + |g.flags|;
    var precisionAt := widthAt + (|g.width| + |g.widthPosition|);
    var sizeAt := precisionAt + (|g.precision| + |g.precisionPosition|);
    Parts(PositionOf(g.position), flagsAt, FlagsIn(g.flags), widthAt, WidthField(g.width, g.widthPosition),
          precisionAt, PrecisionField(g.precision, g.precisionPosition), sizeAt, sizeAt + |g.modifiers|,
          SizeFlags(g.modifiers, 0))
  }

  lemma SizeStart(modifiers: string, letter: char, rest: string)
    requires (forall i :: 0 <= i < |modifiers| ==> modifiers[i] in "hLljzZt") && Plain(letter)
    ensures Plain(CharAt(modifiers + ([letter] + rest), 0))
  {
    hide FlagOf;
    if modifiers != "" {
      NoFlag(modifiers[0]);
      assert (modifiers + ([letter] + rest))[0] == modifiers[0];
    } else {
      assert (modifiers + ([letter] + rest))[0] == letter;
    }
  }

  lemma PrecisionStart(precision: string, position: string, z: string)
    requires IsPrecisionText(precision) && (position == "" || precision == ".*") && Plain(CharAt(z, 0))
    ensures Plain(CharAt(precision + position + z, 0)) || CharAt(precision + position + z, 0) == '.'
  {
    hide Plain;
    if precision == "" {
      assert precision + position + z == z;
    } else {
      assert (precision + position + z)[0] == '.';
    }
  }

  lemma WidthStart(width: string, position: string, pz: string)
    requires IsWidthText(width) && (position == "" || width == "*") && (Plain(CharAt(pz, 0)) || CharAt(pz, 0) == '.')
    ensures FlagOf(CharAt(width + position + pz, 0)).None?
  {
    hide FlagOf;
    NoFlag('.');
    if width == "" {
      assert width + position + pz == pz;
    } else {
      NoFlag(width[0]);
      assert (width + position + pz)[0] == width[0];
    }
  }

  /** No position is found before flags. */
  lemma NoPositionBefore(flags: string, width: string, position: string, pz: string)
    requires forall i :: 0 <= i < |flags| ==> flags[i] in "'-+ #0I"
    requires IsWidthText(width) && (position == "" || width == "*") && (Plain(CharAt(pz, 0)) || CharAt(pz, 0) == '.')
    ensures ScanPosition(flags + (width + position + pz)) == NoPosition
  {
    hide ScanPosition, FlagOf;
    var wz := width + position + pz;
    if width == "*" {
      assert wz[0] == '*';
      NoPositionHere(flags, wz);
    } else {
      NoPositionHere(flags + width, pz);
      assert flags + wz == flags + width + pz;
    }
  }

  lemma FiveTails(a: string, b: string, c: string, d: string, e: string, f: string, i: nat, j: nat, k: nat, l: nat, n: nat)
    requires i == |a| && j == i + |b| && k == j + |c| && l == k + |d| && n == l + |e|
    ensures
      var t := a + (b + (c + (d + (e + f))));
      && n <= |t| && t[i..] == b + (c + (d + (e + f))) && t[j..] == c + (d + (e + f)) && t[k..] == d + (e + f) && t[l..] == e + f
      && t[n..] == f && t[i..j] == b && t[l..n] == e
  {
    var t := a + (b + (c + (d + (e + f))));
    assert t[i..] == b + (c + (d + (e + f)));
    assert t[j..] == c + (d + (e + f));
    assert t[k..] == d + (e + f);
    assert t[l..] == e + f;
  }

  /** The pieces, cut out of their text at the offsets. */
  lemma PiecesCut(g: Pieces, rest: string)
    requires g.WellFormed()
    ensures
      var t, p := g.Before(rest), PartsOf(g);
      var z := g.modifiers + ([g.letter] + rest);
      var pz := g.precision + g.precisionPosition + z;
      var wz := g.width + g.widthPosition + pz;
      && p.flagsAt <= p.widthAt <= p.precisionAt <= p.sizeAt <= p.letterAt < |t|
      && t[p.flagsAt..] == g.flags + wz && t[p.widthAt..] == wz && t[p.precisionAt..] == pz && t[p.sizeAt..] == z
      && t[p.flagsAt..p.widthAt] == g.flags && t[p.sizeAt..p.letterAt] == g.modifiers && t[p.letterAt] == g.letter
  {
    hide IsPosition, IsWidthText, IsPrecisionText, WidthField, PrecisionField, FlagsIn, SizeFlags, PositionOf;
    var p := PartsOf(g);
    FiveTails(g.position, g.flags, g.width + g.widthPosition, g.precision + g.precisionPosition, g.modifiers, [g.letter] + rest,
              p.flagsAt, p.widthAt, p.precisionAt, p.sizeAt, p.letterAt);
    assert g.Before(rest)[p.letterAt] == g.Before(rest)[p.letterAt..][0];
  }

  /** Each piece is read from where it starts. */
  lemma PiecesRead(g: Pieces, rest: string)
    requires g.WellFormed()
    ensures
      var z := g.modifiers + ([g.letter] + rest);
      var pz := g.precision + g.precisionPosition + z;
      var wz := g.width + g.widthPosition + pz;
      && ScanPosition(g.Before(rest)) == PositionOf(g.position)
      && (if PositionOf(g.position).Position? then PositionOf(g.position).length else 0) == |g.position|
      && FlagRun(g.flags + wz) == |g.flags|
      && ScanWidth(wz) == WidthField(g.width, g.widthPosition)
      && WidthField(g.width, g.widthPosition).Extent() == |g.width| + |g.widthPosition|
      && ScanPrecision(pz) == PrecisionField(g.precision, g.precisionPosition)
      && PrecisionField(g.precision, g.precisionPosition).Extent() == |g.precision| + |g.precisionPosition|
      && SizeRun(z) == |g.modifiers|
  {
    hide IsPosition, IsWidthText, IsPrecisionText, WidthField, PrecisionField, FlagsIn, SizeFlags, PositionOf, Plain, FlagOf,
      ScanPosition, ScanWidth, ScanPrecision, FlagRun, SizeRun;
    var z := g.modifiers + ([g.letter] + rest);
    var pz := g.precision + g.precisionPosition + z;
    var wz := g.width + g.widthPosition + pz;
    LetterIsPlain(g.letter);
    SizeStart(g.modifiers, g.letter, rest);
    PrecisionStart(g.precision, g.precisionPosition, z);
    WidthStart(g.width, g.widthPosition, pz);
    PositionLength(g.position);
    if g.position == "" {
      NoPositionBefore(g.flags, g.width, g.widthPosition, pz);
      assert g.Before(rest) == g.flags + wz;
    } else {
      PositionRead(g.position, g.flags + wz);
      assert PositionOf(g.position) == ScanPosition(g.Before(rest)) by { PositionIs(g.position); }
    }
    FlagsThen(g.flags, wz);
    WidthRead(g.width, g.widthPosition, pz);
    PrecisionRead(g.precision, g.precisionPosition, z);
    SizesThen(g.modifiers, [g.letter] + rest);
  }

  lemma PartsAre(t: string, p: Parts)
    requires p.position == ScanPosition(t) && p.flagsAt == if p.position.Position? then p.position.length else 0
    requires p.flagsAt <= p.widthAt <= p.precisionAt <= p.sizeAt <= p.letterAt <= |t|
    requires p.widthAt == p.flagsAt + FlagRun(t[p.flagsAt..]) && p.flags == FlagsIn(t[p.flagsAt..p.widthAt])
    requires p.width == ScanWidth(t[p.widthAt..]) && p.precisionAt == p.widthAt + p.width.Extent()
    requires p.precision == ScanPrecision(t[p.precisionAt..]) && p.sizeAt == p.precisionAt + p.precision.Extent()
    requires p.letterAt == p.sizeAt + SizeRun(t[p.sizeAt..]) && p.sizeFlags == SizeFlags(t[p.sizeAt..p.letterAt], 0)
    ensures ScanParts(t) == p
  {
    hide FlagsIn, SizeFlags, FlagOf, IsSizeModifier, ScanPosition, ScanWidth, ScanPrecision, FlagRun, SizeRun, CharAt;
  }

  /** Scanning a text of this grammar finds its pieces, whatever comes after. */
  lemma PiecesScanned(g: Pieces, rest: string)
    requires g.WellFormed()
    ensures
      var t, p := g.Before(rest), PartsOf(g);
      ScanParts(t) == p && p.letterAt < |t| && t[p.letterAt] == g.letter
  {
    hide IsPosition, IsWidthText, IsPrecisionText, WidthField, PrecisionField, FlagsIn, SizeFlags, PositionOf, FlagOf, IsSizeModifier,
      ScanPosition, ScanWidth, ScanPrecision, FlagRun, SizeRun, CharAt, ScanParts, Pieces.WellFormed, Pieces.Before;
    PiecesCut(g, rest);
    PiecesRead(g, rest);
    PartsAre(g.Before(rest), PartsOf(g));
  }

  // ---------- Every directive is of this grammar ----------

  lemma PositionText(u: string)
    requires ScanPosition(u).Position?
    ensures IsPosition(u[..ScanPosition(u).length])
  {
    hide NumberOf;
    var n := DigitRun(u);
    assert u[..n + 1][..n] == u[..n];
  }

  lemma {:induction false} FlagsOnly(u: string)
    ensures forall i :: 0 <= i < FlagRun(u) ==> u[i] in "'-+ #0I"
  {
    if u != "" && FlagOf(u[0]).Some? {
      FlagsOnly(u[1..]);
      assert forall i :: 0 < i < FlagRun(u) ==> u[i] == u[1..][i - 1];
    }
  }

  lemma {:induction false} SizesOnly(u: string)
    ensures forall i :: 0 <= i < SizeRun(u) ==> u[i] in "hLljzZt"
  {
    if u != "" && IsSizeModifier(u[0]) {
      SizesOnly(u[1..]);
      assert forall i :: 0 < i < SizeRun(u) ==> u[i] == u[1..][i - 1];
    }
  }

  /** No position in the parts is zero or too large. */
  ghost predicate GoodPositions(p: Parts) {
    && !p.position.BadPosition?
    && (p.width.Star? ==> !p.width.position.BadPosition?)
    && (p.precision.Star? ==> !p.precision.position.BadPosition?)
  }

  /** The text of a field and the position after it. */
  ghost predicate IsField(u: string, f: Field, star: string) {
    && f.TextLength() <= f.Extent() <= |u|
    && var position := u[f.TextLength()..f.Extent()];
    position == "" || (u[..f.TextLength()] == star && IsPosition(position))
  }

  lemma WidthText(u: string)
    requires FlagOf(CharAt(u, 0)).None? && (ScanWidth(u).Star? ==> !ScanWidth(u).position.BadPosition?)
    ensures IsWidthText(u[..ScanWidth(u).TextLength()]) && IsField(u, ScanWidth(u), "*")
  {
    hide ScanPosition, IsPosition;
    if CharAt(u, 0) == '*' && ScanWidth(u).position.Position? {
      PositionText(u[1..]);
      var n := ScanWidth(u).position.length;
      assert u[1..1 + n] == u[1..][..n];
    }
  }

  lemma PrecisionText(u: string)
    requires ScanPrecision(u).Star? ==> !ScanPrecision(u).position.BadPosition?
    ensures IsPrecisionText(u[..ScanPrecision(u).TextLength()]) && IsField(u, ScanPrecision(u), ".*")
  {
    hide ScanPosition, IsPosition;
    if CharAt(u, 0) == '.' {
      if CharAt(u, 1) == '*' {
        if ScanPrecision(u).position.Position? {
          PositionText(u[2..]);
          var n := ScanPrecision(u).position.length;
          assert u[2..2 + n] == u[2..][..n];
        }
      } else {
        var n := DigitRun(u[1..]);
        assert u[..1 + n][1..] == u[1..][..n];
      }
    }
  }

  lemma OnlyTheseLetters(c: char, flags: nat)
    ensures ConversionOf(c, flags).Some? <==> IsConversionLetter(c)
  {
  }

  /** What the parts of a text are. */
  lemma PartsFound(t: string)
    ensures
      var p := ScanParts(t);
      && p.position == ScanPosition(t) && p.flagsAt == (if p.position.Position? then p.position.length else 0)
      && p.widthAt == p.flagsAt + FlagRun(t[p.flagsAt..]) && p.flags == FlagsIn(t[p.flagsAt..p.widthAt])
      && p.width == ScanWidth(t[p.widthAt..]) && p.precisionAt == p.widthAt + p.width.Extent()
      && p.precision == ScanPrecision(t[p.precisionAt..]) && p.sizeAt == p.precisionAt + p.precision.Extent()
      && p.letterAt == p.sizeAt + SizeRun(t[p.sizeAt..]) && p.sizeFlags == SizeFlags(t[p.sizeAt..p.letterAt], 0)
  {
    hide FlagsIn, FlagRun, SizeRun, SizeFlags, ScanPosition, ScanWidth, ScanPrecision, FlagOf, CharAt, IsSizeModifier;
  }

  lemma NoFlagAfter(t: string)
    ensures FlagOf(CharAt(t[ScanParts(t).widthAt..], 0)).None?
  {
    hide FlagsIn, FlagRun, SizeRun, SizeFlags, ScanPosition, ScanWidth, ScanPrecision, FlagOf, IsSizeModifier, ScanParts;
    PartsFound(t);
    var p := ScanParts(t);
    assert CharAt(t[p.flagsAt..], FlagRun(t[p.flagsAt..])) == CharAt(t[p.widthAt..], 0);
  }

  lemma SameSlice(t: string, at: nat, i: nat, j: nat)
    requires i <= j && at + j <= |t|
    ensures t[at + i..at + j] == t[at..][i..j]
  {
  }

  lemma Rejoined(t: string, a: nat, b: nat, c: nat, d: nat, e: nat, f: nat, g: nat)
    requires a <= b <= c <= d <= e <= f <= g < |t|
    ensures t == t[..a] + (t[a..b] + (t[b..c] + t[c..d] + (t[d..e] + t[e..f] + (t[f..g] + ([t[g]] + t[g + 1..])))))
  {
    assert [t[g]] + t[g + 1..] == t[g..];
    assert t[f..g] + t[g..] == t[f..];
    assert t[d..e] + t[e..f] + t[f..] == t[d..];
    assert t[b..c] + t[c..d] + t[d..] == t[b..];
    assert t[a..b] + t[b..] == t[a..];
  }

  /** Cuts a text at the offsets. */
  ghost function Cut(t: string, p: Parts): Pieces
    requires p.flagsAt <= p.widthAt <= p.precisionAt <= p.sizeAt <= p.letterAt < |t|
    requires p.width.TextLength() <= p.precisionAt - p.widthAt && p.precision.TextLength() <= p.sizeAt - p.precisionAt
  {
    var w, q := p.widthAt + p.width.TextLength(), p.precisionAt + p.precision.TextLength();
    Pieces(t[..p.flagsAt], t[p.flagsAt..p.widthAt], t[p.widthAt..w], t[w..p.precisionAt],
           t[p.precisionAt..q], t[q..p.sizeAt], t[p.sizeAt..p.letterAt], t[p.letterAt])
  }

  lemma CutAndJoined(t: string, p: Parts)
    requires p.flagsAt <= p.widthAt <= p.precisionAt <= p.sizeAt <= p.letterAt < |t|
    requires p.width.TextLength() <= p.precisionAt - p.widthAt && p.precision.TextLength() <= p.sizeAt - p.precisionAt
    ensures Cut(t, p).Before(t[p.letterAt + 1..]) == t
  {
    var w, q := p.widthAt + p.width.TextLength(), p.precisionAt + p.precision.TextLength();
    Rejoined(t, p.flagsAt, p.widthAt, w, p.precisionAt, q, p.sizeAt, p.letterAt);
  }

  lemma HeadFormed(t: string)
    requires !ScanParts(t).position.BadPosition?
    ensures
      var p := ScanParts(t);
      && (t[..p.flagsAt] == "" || IsPosition(t[..p.flagsAt]))
      && forall i :: p.flagsAt <= i < p.widthAt ==> t[i] in "'-+ #0I"
  {
    hide FlagsIn, SizeRun, SizeFlags, FlagRun, ScanPosition, ScanWidth, ScanPrecision, FlagOf, ScanParts, IsPosition;
    var p := ScanParts(t);
    PartsFound(t);
    if p.position.Position? {
      PositionText(t);
    }
    FlagsOnly(t[p.flagsAt..]);
    assert forall i :: p.flagsAt <= i < p.widthAt ==> t[i] == t[p.flagsAt..][i - p.flagsAt];
  }

  lemma WidthFormed(t: string)
    requires GoodPositions(ScanParts(t))
    ensures
      var p := ScanParts(t);
      var n := p.width.TextLength();
      && n <= p.precisionAt - p.widthAt && IsWidthText(t[p.widthAt..p.widthAt + n])
      && var position := t[p.widthAt + n..p.precisionAt];
      position == "" || (t[p.widthAt..p.widthAt + n] == "*" && IsPosition(position))
  {
    hide FlagsIn, SizeRun, SizeFlags, FlagRun, ScanPosition, ScanWidth, ScanPrecision, FlagOf, ScanParts, IsPosition, IsWidthText;
    var p := ScanParts(t);
    PartsFound(t);
    NoFlagAfter(t);
    WidthText(t[p.widthAt..]);
    SameSlice(t, p.widthAt, 0, p.width.TextLength());
    SameSlice(t, p.widthAt, p.width.TextLength(), p.width.Extent());
  }

  lemma PrecisionFormed(t: string)
    requires GoodPositions(ScanParts(t))
    ensures
      var p := ScanParts(t);
      var n := p.precision.TextLength();
      && n <= p.sizeAt - p.precisionAt && IsPrecisionText(t[p.precisionAt..p.precisionAt + n])
      && var position := t[p.precisionAt + n..p.sizeAt];
      position == "" || (t[p.precisionAt..p.precisionAt + n] == ".*" && IsPosition(position))
  {
    hide FlagsIn, SizeRun, SizeFlags, FlagRun, ScanPosition, ScanWidth, ScanPrecision, FlagOf, ScanParts, IsPosition, IsPrecisionText;
    var p := ScanParts(t);
    PartsFound(t);
    PrecisionText(t[p.precisionAt..]);
    SameSlice(t, p.precisionAt, 0, p.precision.TextLength());
    SameSlice(t, p.precisionAt, p.precision.TextLength(), p.precision.Extent());
  }

  lemma ModifiersFormed(t: string)
    ensures forall i :: ScanParts(t).sizeAt <= i < ScanParts(t).letterAt ==> t[i] in "hLljzZt"
  {
    hide FlagsIn, SizeRun, SizeFlags, FlagRun, ScanPosition, ScanWidth, ScanPrecision, FlagOf, ScanParts;
    var p := ScanParts(t);
    PartsFound(t);
    SizesOnly(t[p.sizeAt..]);
    assert forall i :: p.sizeAt <= i < p.letterAt ==> t[i] == t[p.sizeAt..][i - p.sizeAt];
  }

  /** A text that is scanned as a directive is a text of this grammar, and what comes after. */
  lemma ScannedPieces(t: string) returns (g: Pieces)
    requires
      var p := ScanParts(t);
      GoodPositions(p) && ConversionOf(CharAt(t, p.letterAt), p.sizeFlags).Some?
    ensures g.WellFormed()
    ensures
      var p := ScanParts(t);
      p == PartsOf(g) && p.letterAt < |t| && t == g.Before(t[p.letterAt + 1..])
  {
    hide ConversionOf, ScanParts, IsPosition, IsWidthText, IsPrecisionText, PartsOf, IsConversionLetter, Pieces.Before;
    var p := ScanParts(t);
    OnlyTheseLetters(CharAt(t, p.letterAt), p.sizeFlags);
    HeadFormed(t);
    WidthFormed(t);
    PrecisionFormed(t);
    ModifiersFormed(t);
    g := Cut(t, p);
    CutAndJoined(t, p);
    PiecesScanned(g, t[p.letterAt + 1..]);
  }

  lemma BeforeAll(g: Pieces, rest: string)
    ensures g.Before(rest) == g.Before("") + rest
  {
    var z := g.modifiers + ([g.letter] + "");
    var w, q := g.width + g.widthPosition, g.precision + g.precisionPosition;
    assert g.modifiers + ([g.letter] + rest) == z + rest;
    assert w + (q + (z + rest)) == w + (q + z) + rest;
    assert g.position + (g.flags + (w + (q + z) + rest)) == g.position + (g.flags + (w + (q + z))) + rest;
  }

  lemma LetterScanned(g: Pieces)
    requires g.WellFormed()
    ensures GoodPositions(PartsOf(g)) && ConversionOf(g.letter, PartsOf(g).sizeFlags).Some?
  {
    hide IsPosition, FlagsIn, SizeFlags, ConversionOf, IsConversionLetter, PositionOf;
    PositionLength(g.position);
    PositionLength(g.widthPosition);
    PositionLength(g.precisionPosition);
    OnlyTheseLetters(g.letter, SizeFlags(g.modifiers, 0));
  }

  // ---------- What flags and modifiers mean ----------

  /** Each flag is set exactly if its character occurs, wherever and however often. */
  lemma {:induction false} FlagsMean(t: string)
    ensures Group in FlagsIn(t) <==> '\'' in t
    ensures Left in FlagsIn(t) <==> '-' in t
    ensures ShowSign in FlagsIn(t) <==> '+' in t
    ensures Space in FlagsIn(t) <==> ' ' in t
    ensures Alt in FlagsIn(t) <==> '#' in t
    ensures Zero in FlagsIn(t) <==> '0' in t
    ensures Localized in FlagsIn(t) <==> 'I' in t
  {
    if t != "" {
      FlagsMean(t[1..]);
      assert t == [t[0]] + t[1..];
    }
  }

  /** How often characters of a kind occur in a text. */
  function Occurrences(t: string, kind: set<char>): nat {
    if t == "" then 0 else (if t[0] in kind then 1 else 0) + Occurrences(t[1..], kind)
  }

  const WIDE := {'l', 'j', 'z', 'Z', 't'}

  /** The size flags for so many modifiers that widen, an L or none, and so many h. */
  function SizeCode(wide: nat, long: bool, short: nat): nat {
    8 * wide + (if long then 4 else 0) + (if short >= 2 then 2 else 0) + (if short >= 1 then 1 else 0)
  }

  lemma BitsOfCode(wide: nat, long: bool, short: nat)
    ensures
      var f := SizeCode(wide, long, short);
      (BitOf(f, 1) <==> short >= 1) && (BitOf(f, 2) <==> short >= 2) && (BitOf(f, 4) <==> long) && f / 8 == wide
  {
  }

  lemma StepOfCode(c: char, wide: nat, long: bool, short: nat)
    requires IsSizeModifier(c)
    ensures
      SizeStep(c, SizeCode(wide, long, short)) ==
      Some(SizeCode(if c in WIDE then wide + 1 else wide, long || c == 'L', if c == 'h' then short + 1 else short))
  {
    BitsOfCode(wide, long, short);
  }

  lemma {:induction false} CodeOf(t: string, wide: nat, long: bool, short: nat)
    requires forall i :: 0 <= i < |t| ==> IsSizeModifier(t[i])
    ensures
      SizeFlags(t, SizeCode(wide, long, short)) ==
      SizeCode(wide + Occurrences(t, WIDE), long || 'L' in t, short + Occurrences(t, {'h'}))
  {
    hide SizeCode, SizeStep;
    if t != "" {
      var w, l, h := if t[0] in WIDE then wide + 1 else wide, long || t[0] == 'L', if t[0] == 'h' then short + 1 else short;
      StepOfCode(t[0], wide, long, short);
      CodeOf(t[1..], w, l, h);
      assert t == [t[0]] + t[1..];
    }
  }

  /** The argument that a conversion asks for, by the modifiers that stand before it, in any number and order. */
  function AskedType(letter: char, modifiers: string): ArgType {
    var wide, short := Occurrences(modifiers, WIDE), Occurrences(modifiers, {'h'});
    var longest := wide >= 2 || 'L' in modifiers;
    if letter in {'d', 'i'} then
      if longest then TypeLongLongInt else if wide == 1 then TypeLongInt
      else if short >= 2 then TypeSChar else if short == 1 then TypeShort else TypeInt
    else if letter in {'o', 'u', 'x', 'X'} then
      if longest then TypeULongLongInt else if wide == 1 then TypeULongInt
      else if short >= 2 then TypeUChar else if short == 1 then TypeUShort else TypeUInt
    else if letter == 'n' then
      if longest then TypeCountLongLongInt else if wide == 1 then TypeCountLongInt
      else if short >= 2 then TypeCountSChar else if short == 1 then TypeCountShort else TypeCountInt
    else if letter == 'c' then if wide >= 1 then TypeWideChar else TypeChar
    else if letter == 's' then if wide >= 1 then TypeWideString else TypeString
    else if letter == 'C' then TypeWideChar
    else if letter == 'S' then TypeWideString
    else if letter == 'p' then TypePointer
    else if letter == '%' then TypeNone
    else if longest then TypeLongDouble else TypeDouble
  }

  /** C and S are lc and ls. */
  function AskedLetter(letter: char): char {
    if letter == 'C' then 'c' else if letter == 'S' then 's' else letter
  }

  lemma LetterTakes(letter: char, modifiers: string)
    ensures AskedType(letter, modifiers) == TypeNone <==> letter == '%'
    ensures AskedLetter(letter) == '%' <==> letter == '%'
  {
    hide Occurrences;
  }

  lemma ConversionMeans(letter: char, wide: nat, long: bool, short: nat, modifiers: string)
    requires IsConversionLetter(letter)
    requires wide == Occurrences(modifiers, WIDE) && long == ('L' in modifiers) && short == Occurrences(modifiers, {'h'})
    ensures
      ConversionOf(letter, SizeCode(wide, long, short)) == Some(Conversion(AskedType(letter, modifiers), AskedLetter(letter)))
  {
    hide Occurrences, BitOf;
    BitsOfCode(wide, long, short);
  }

  /** Only the number of the modifiers that widen, the number of h, and the presence of L count. */
  lemma ModifiersMean(letter: char, modifiers: string)
    requires IsConversionLetter(letter) && forall i :: 0 <= i < |modifiers| ==> modifiers[i] in "hLljzZt"
    ensures ConversionOf(letter, SizeFlags(modifiers, 0)) == Some(Conversion(AskedType(letter, modifiers), AskedLetter(letter)))
  {
    hide ConversionOf, SizeFlags, Occurrences, AskedType;
    assert SizeCode(0, false, 0) == 0;
    CodeOf(modifiers, 0, false, 0);
    ConversionMeans(letter, Occurrences(modifiers, WIDE), 'L' in modifiers, Occurrences(modifiers, {'h'}), modifiers);
  }
}
