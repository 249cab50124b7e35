/** The output accumulator: literal text and the expansions of directives, in a buffer that grows. */
module Output {
  import opened Integers
  import opened Xsize
  import opened FormatSyntax
  import opened ParserSpec
  import opened ParserProperties
  import opened FormatParser
  import opened FetchArgs

  // ---------- What is written ----------

  /** The gaps before the first k directives, each followed by a text in place of its directive. */
  ghost function Interleaved(s: string, dirs: seq<Directive>, texts: seq<string>, k: nat): string
    requires k <= |dirs| == |texts| && Ordered(s, dirs)
  {
    if k == 0 then ""
    else Interleaved(s, dirs, texts, k - 1) + s[GapStart(dirs, k - 1)..dirs[k - 1].dirStart] + texts[k - 1]
  }

  lemma LastGap(s: string, dirs: seq<Directive>, k: nat)
    requires k <= |dirs| && Ordered(s, dirs)
    ensures GapStart(dirs, k) <= |s|
  {
  }

  ghost function Complete(s: string, dirs: seq<Directive>, texts: seq<string>): string
    requires |dirs| == |texts| && Ordered(s, dirs)
  {
    LastGap(s, dirs, |dirs|);
    Interleaved(s, dirs, texts, |dirs|) + s[GapStart(dirs, |dirs|)..]
  }

  /** A value stored for %n: to which argument, and what. */
  datatype Count = Count(arg: Size, value: int)

  /** The length as the type that the argument points to can hold it. */
  function CountAs(t: ArgType, length: nat): int {
    match t
    case TypeCountSChar => ToSigned(length, 0x100)
    case TypeCountShort => ToSigned(length, 0x1_0000)
    case TypeCountInt => ToSigned(length, 0x1_0000_0000)
    case _ => ToSigned(length, 0x1_0000_0000_0000_0000)
  }

  /** What the first k directives store: each %n the length of everything before it. */
  ghost function Counts(s: string, dirs: seq<Directive>, texts: seq<string>, types: seq<ArgType>, k: nat): seq<Count>
    requires k <= |dirs| == |texts| && Ordered(s, dirs)
    requires forall j :: 0 <= j < |dirs| ==> Executable(dirs[j], types)
  {
    if k == 0 then []
    else
      var d := dirs[k - 1];
      Counts(s, dirs, texts, types, k - 1)
      + if d.conversion != 'n' then []
        else [Count(d.arg, CountAs(types[d.arg], |Interleaved(s, dirs, texts, k - 1)| + (d.dirStart - GapStart(dirs, k - 1))))]
  }

  /** The smallest number that the argument of %n cannot hold; the types wider than int all have 64 bits. */
  function CountLimit(t: ArgType): int {
    if t == TypeCountSChar then 0x80 else if t == TypeCountShort then 0x8000
    else if t == TypeCountInt then 0x8000_0000 else 0x8000_0000_0000_0000
  }

  /** What %n stores is the length, if the type can hold it, and differs from it by a multiple of the size of the type otherwise. */
  lemma CountIsCut(t: ArgType, length: nat)
    ensures
      var n, limit := CountAs(t, length), CountLimit(t);
      -limit <= n < limit && (length - n) % (2 * limit) == 0 && (length < limit ==> n == length)
  {
    ToSignedIsCast(length, CountLimit(t));
  }

  // ---------- Laws ----------

  lemma {:induction false} OwnTextsRebuild(s: string, dirs: seq<Directive>, texts: seq<string>, k: nat)
    requires k <= |dirs| == |texts| && Ordered(s, dirs)
    requires forall j :: 0 <= j < |dirs| ==> texts[j] == s[dirs[j].dirStart..dirs[j].dirEnd]
    ensures Interleaved(s, dirs, texts, k) == Rebuilt(s, dirs, k)
  {
    hide GapStart;
    if k == 0 {
    } else {
      OwnTextsRebuild(s, dirs, texts, k - 1);
    }
  }

  /** If every directive stands for its own text, the output is the format. */
  lemma OwnTextsGiveFormat(s: string, dirs: seq<Directive>, texts: seq<string>)
    requires |dirs| == |texts| && Ordered(s, dirs)
    requires forall j :: 0 <= j < |dirs| ==> texts[j] == s[dirs[j].dirStart..dirs[j].dirEnd]
    ensures Complete(s, dirs, texts) == s
  {
    hide Interleaved, Rebuilt, GapStart;
    OwnTextsRebuild(s, dirs, texts, |dirs|);
    RebuiltPrefix(s, dirs, |dirs|);
  }

  function TotalLength(texts: seq<string>, k: nat): nat
    requires k <= |texts|
  {
    if k == 0 then 0 else TotalLength(texts, k - 1) + |texts[k - 1]|
  }

  function DirectiveLength(dirs: seq<Directive>, k: nat): int
    requires k <= |dirs|
  {
    if k == 0 then 0 else DirectiveLength(dirs, k - 1) + (dirs[k - 1].dirEnd - dirs[k - 1].dirStart)
  }

  /** Nothing of the format but its directives is lost, and nothing but their expansions is added. */
  lemma {:induction false} TextIsConserved(s: string, dirs: seq<Directive>, texts: seq<string>, k: nat)
    requires k <= |dirs| == |texts| && Ordered(s, dirs)
    ensures |Interleaved(s, dirs, texts, k)| + DirectiveLength(dirs, k) == GapStart(dirs, k) + TotalLength(texts, k)
    ensures k == |dirs| ==> |Complete(s, dirs, texts)| + DirectiveLength(dirs, k) == |s| + TotalLength(texts, k)
  {
    if k == 0 {
    } else {
      TextIsConserved(s, dirs, texts, k - 1);
    }
    LastGap(s, dirs, k);
  }

  /** How many of the first k directives are %n. */
  function CountDirectives(dirs: seq<Directive>, k: nat): nat
    requires k <= |dirs|
  {
    if k == 0 then 0 else CountDirectives(dirs, k - 1) + if dirs[k - 1].conversion == 'n' then 1 else 0
  }

  /** The length of what is written before a directive: the format before it, less the directives there, plus their texts. */
  lemma LengthBefore(s: string, dirs: seq<Directive>, texts: seq<string>, k: nat)
    requires k < |dirs| == |texts| && Ordered(s, dirs)
    ensures GapStart(dirs, k) <= dirs[k].dirStart <= |s|
    ensures
      |Interleaved(s, dirs, texts, k) + s[GapStart(dirs, k)..dirs[k].dirStart]| ==
      dirs[k].dirStart - DirectiveLength(dirs, k) + TotalLength(texts, k)
  {
    hide GapStart, Interleaved;
    TextIsConserved(s, dirs, texts, k);
  }

  lemma FirstStep(s: string, dirs: seq<Directive>, texts: seq<string>, types: seq<ArgType>)
    requires |dirs| == |texts| && Ordered(s, dirs)
    requires forall j :: 0 <= j < |dirs| ==> Executable(dirs[j], types)
    ensures GapStart(dirs, 0) == 0 && Interleaved(s, dirs, texts, 0) == "" && Counts(s, dirs, texts, types, 0) == []
  {
  }

  lemma NextStep(s: string, dirs: seq<Directive>, texts: seq<string>, types: seq<ArgType>, k: nat)
    requires k < |dirs| == |texts| && Ordered(s, dirs)
    requires forall j :: 0 <= j < |dirs| ==> Executable(dirs[j], types)
    ensures
      var d, before := dirs[k], Interleaved(s, dirs, texts, k);
      && Interleaved(s, dirs, texts, k + 1) == before + s[GapStart(dirs, k)..d.dirStart] + texts[k]
      && Counts(s, dirs, texts, types, k + 1) ==
         Counts(s, dirs, texts, types, k)
         + if d.conversion == 'n' then [Count(d.arg, CountAs(types[d.arg], |before + s[GapStart(dirs, k)..d.dirStart]|))] else []
  {
    hide CountAs, GapStart;
  }

  /** Each %n stores one count, in order, of the length of what is written before it. */
  lemma {:induction false} CountsAreLengths(s: string, dirs: seq<Directive>, texts: seq<string>, types: seq<ArgType>, k: nat, m: nat)
    requires k < m <= |dirs| == |texts| && Ordered(s, dirs)
    requires forall j :: 0 <= j < |dirs| ==> Executable(dirs[j], types)
    ensures |Counts(s, dirs, texts, types, k)| == CountDirectives(dirs, k)
    ensures
      dirs[k].conversion == 'n' ==>
        var length := dirs[k].dirStart - DirectiveLength(dirs, k) + TotalLength(texts, k);
        && length >= 0 && |Counts(s, dirs, texts, types, m)| > CountDirectives(dirs, k)
        && Counts(s, dirs, texts, types, m)[CountDirectives(dirs, k)] == Count(dirs[k].arg, CountAs(types[dirs[k].arg], length))
    decreases m
  {
    hide CountAs, GapStart, Interleaved, Executable, Counts, DirectiveLength, TotalLength, Ordered;
    NextStep(s, dirs, texts, types, m - 1);
    if k < m - 1 {
      CountsAreLengths(s, dirs, texts, types, k, m - 1);
    } else {
      LengthBefore(s, dirs, texts, k);
      if k > 0 {
        CountsAreLengths(s, dirs, texts, types, k - 1, k);
        NextStep(s, dirs, texts, types, k - 1);
      } else {
        FirstStep(s, dirs, texts, types);
      }
    }
  }

  /** The output only grows. */
  lemma {:induction false} PrefixIsShorter(s: string, dirs: seq<Directive>, texts: seq<string>, k: nat)
    requires k <= |dirs| == |texts| && Ordered(s, dirs)
    ensures |Interleaved(s, dirs, texts, k)| <= |Complete(s, dirs, texts)|
    ensures
      k < |dirs| ==>
        |Interleaved(s, dirs, texts, k)| + (dirs[k].dirStart - GapStart(dirs, k)) + |texts[k]| <= |Complete(s, dirs, texts)|
    decreases |dirs| - k
  {
    hide GapStart;
    LastGap(s, dirs, |dirs|);
    if k == |dirs| {
    } else {
      PrefixIsShorter(s, dirs, texts, k + 1);
    }
  }

  lemma NextGap(dirs: seq<Directive>, k: nat)
    requires k < |dirs|
    ensures GapStart(dirs, k + 1) == dirs[k].dirEnd
  {
  }

  // ---------- The accumulator ----------

  lemma FitsExactly(length: Size, n: Size, capacity: Size)
    requires Xsum(length, n) <= capacity < SIZE_MAX
    ensures length + n <= capacity
  {
  }

  /** result, allocated and length. A null pointer is an array without cells. */
  class Accumulator {
    const resultbuf: array<char>
    var result: array<char>
    var length: nat

    constructor (resultbuf: array<char>)
      requires resultbuf.Length < SIZE_MAX
      ensures Valid() && length == 0 && result == resultbuf == this.resultbuf
    {
      this.resultbuf := resultbuf;
      result, length := resultbuf, 0;
    }

    ghost predicate Valid()
      reads this
    {
      length <= result.Length < SIZE_MAX
    }

    ghost function Written(): string
      requires Valid()
      reads this, result
    {
      result[..length]
    }

    /**
     ENSURE_ALLOCATION: at least doubles the memory if there is not enough.
     It fails only if more than half of all memory is needed.
     */
    method EnsureAllocation(needed: Size) returns (ok: bool)
      requires Valid()
      modifies this`result
      ensures Valid() && Written() == old(Written()) && (result == old(result) || fresh(result))
      ensures needed <= old(result.Length) ==> ok && result == old(result)
      ensures
        ok && needed > old(result.Length) ==>
          result.Length >= 2 * old(result.Length) && result.Length in {needed, 12, 2 * old(result.Length)}
      ensures if ok then needed <= result.Length else needed > SIZE_MAX / 2
    {
      if needed > result.Length {
        var capacity := if result.Length > 0 then Xtimes(result.Length, 2) else 12;
        if needed > capacity {
          capacity := needed;
        }
        var memorySize := Xtimes(capacity, 1);
        if SizeOverflow(memorySize) {
          return false;
        }
        result := Reallocate(result, length, capacity, '\0');
      }
      ok := true;
    }

    /** Writes a piece of text at the end; there is room for it. */
    method Copy(s: string, from: nat, to: nat)
      requires Valid() && from <= to <= |s| && length + (to - from) <= result.Length
      modifies this`length, result
      ensures Valid() && Written() == old(Written()) + s[from..to]
    {
      ghost var before := Written();
      for i := from to to
        invariant length == old(length) + (i - from) && length <= result.Length && result == old(result)
        invariant result[..length] == before + s[from..i]
      {
        result[length] := s[i];
        length := length + 1;
      }
    }

    /** Makes room, and writes a piece of the format, if there is any. */
    method AppendGap(s: string, from: nat, to: nat) returns (ok: bool)
      requires Valid() && from <= to <= |s| <= SIZE_MAX
      modifies this, result
      ensures Valid() && (result == old(result) || fresh(result))
      ensures if ok then Written() == old(Written()) + s[from..to] else old(length) + (to - from) > SIZE_MAX / 2
    {
      ok := true;
      if from != to {
        SaturatedSum(length, to - from);
        ok := EnsureAllocation(Xsum(length, to - from));
        if !ok {
          return;
        }
        FitsExactly(length, to - from, result.Length);
        Copy(s, from, to);
      }
    }

    /** Makes room if the text would fill all that is left, and writes the text. */
    method AppendText(text: string) returns (ok: bool)
      requires Valid() && |text| <= SIZE_MAX
      modifies this, result
      ensures Valid() && (result == old(result) || fresh(result))
      ensures if ok then Written() == old(Written()) + text else old(length) + |text| > SIZE_MAX / 2
    {
      ok := true;
      if |text| >= result.Length - length {
        SaturatedSum(length, |text|);
        ok := EnsureAllocation(Xsum(length, |text|));
        if !ok {
          return;
        }
        FitsExactly(length, |text|, result.Length);
      }
      Copy(text, 0, |text|);
      assert text[0..|text|] == text;
    }

    /** Adds the final NUL and gives back memory that is not needed, unless it is the caller's. */
    method Finish() returns (ok: bool)
      requires Valid()
      modifies this`result, result
      ensures Valid() && length == old(length)
      ensures ok ==> Written() == old(Written()) && length < result.Length && result[length] == '\0'
      ensures ok && result != resultbuf ==> result.Length == length + 1
      ensures !ok ==> length + 1 > SIZE_MAX / 2
    {
      SaturatedSum(length, 1);
      ok := EnsureAllocation(Xsum(length, 1));
      if !ok {
        return;
      }
      FitsExactly(length, 1, result.Length);
      result[length] := '\0';
      ghost var written := result[..length + 1];
      if result != resultbuf && length + 1 < result.Length {
        result := Reallocate(result, length + 1, length + 1, '\0');
        assert result[..length + 1] == written;
      }
      assert result[..length] == written[..length] && result[length] == written[length];
    }
  }
}
