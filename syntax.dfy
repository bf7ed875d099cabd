// The command parser of src/syntax.rs.
//
// A command is `[accessor] [operator] [right operand]`. The parser walks the
// command with a `ParsingIterator`: a character sequence and an offset that
// skips whitespace as it moves. The iterator's moves are imperative in the
// source (a `while` loop over the offset); here each move is a method of the
// class `ParsingIterator` proved equal to a function on `Cursor` values, and
// the grammar, which threads the iterator from rule to rule, is written as
// functions on those values.
module Syntax {
  import opened Results
  import opened Numbers
  import Literals
  import Register

  // ---------------------------------------------------------------------
  // What a command names
  // ---------------------------------------------------------------------

  /** Named parts of a register (not yet produced by the parser). */
  datatype NamedAccess = Exponent | Fraction | Carry | NoAccess

  datatype LeftOperandSource = LeftRange(range: BitsRange) | LeftNamed(access: NamedAccess)

  /** The right operand: a range of the register, a named part, a literal, or nothing. */
  datatype RightOperandSource =
    | RightRange(range: BitsRange)
    | RightNamed(access: NamedAccess)
    | Direct(number: NumberState)
    | Empty

  /** The handler a command selects (a function pointer in the source). */
  datatype Operator =
    | ShowHelp | Assign | Sum | Sub | Mul | Div | Mod | Pow | Root
    | BitXor | BitAnd | BitOr | BitNot | Reverse | Random | Shuffle
    | SignedShiftLeft | SignedShiftRight | UnsignedShiftRight
    | CyclicShiftRight | CyclicShiftLeft | IntBitsWidth | Count
    | MakeSigned | MakeUnsigned | Greater | Less | Equals | Swap | Negate
    | Undo | Redo

  // ---------------------------------------------------------------------
  // The iterator
  // ---------------------------------------------------------------------

  /** `char::is_whitespace`: the characters with the Unicode White_Space property. */
  predicate IsWhitespace(c: char)
  {
    ('\t' <= c <= '\r') || c == ' ' || c == '\U{85}' || c == '\U{A0}' || c == '\U{1680}'
    || ('\U{2000}' <= c <= '\U{200A}') || c == '\U{2028}' || c == '\U{2029}'
    || c == '\U{202F}' || c == '\U{205F}' || c == '\U{3000}'
  }

  /** The value of a `ParsingIterator`: the command's characters and the offset into them. */
  datatype Cursor = Cursor(source: string, offset: nat)

  predicate Valid(c: Cursor)
  {
    c.offset <= |c.source|
  }

  /** The iterator rests at the end or on a character that is not whitespace. */
  predicate Placed(c: Cursor)
  {
    Valid(c) && (c.offset == |c.source| || !IsWhitespace(c.source[c.offset]))
  }

  /** `current`: the character at the offset, if any. */
  function Current(c: Cursor): Option<char>
  {
    if c.offset < |c.source| then Some(c.source[c.offset]) else None
  }

  /** The first offset at or after off that does not hold whitespace. */
  function SkipWhitespace(s: string, off: nat): (r: nat)
    requires off <= |s|
    ensures off <= r <= |s|
    ensures r == |s| || !IsWhitespace(s[r])
    ensures forall i :: off <= i < r ==> IsWhitespace(s[i])
    decreases |s| - off
  {
    if off < |s| && IsWhitespace(s[off]) then SkipWhitespace(s, off + 1) else off
  }

  /** `ParsingIterator::from`: leading whitespace is skipped. */
  function Start(s: string): (c: Cursor)
    ensures c.source == s && Placed(c)
    ensures forall i :: 0 <= i < c.offset ==> IsWhitespace(s[i])
  {
    Cursor(s, SkipWhitespace(s, 0))
  }

  /**
   * `next`: one character forward unless at the end, then past any
   * whitespace. Away from the end the offset strictly grows and everything
   * passed over after the current character is whitespace.
   */
  function AfterNext(c: Cursor): (r: Cursor)
    requires Valid(c)
    ensures r.source == c.source && Placed(r)
    ensures c.offset < |c.source| ==> c.offset < r.offset
    ensures forall i :: c.offset < i < r.offset ==> IsWhitespace(c.source[i])
    ensures c.offset == |c.source| ==> r == c
  {
    Cursor(c.source, SkipWhitespace(c.source, if c.offset < |c.source| then c.offset + 1 else c.offset))
  }

  /**
   * `rewind(n, skip_whitespaces)`: step forward one character at a time
   * until n characters have been counted or the end is reached; a character
   * landed on counts unless it is whitespace and whitespace is skipped.
   * With whitespace skipped and something to do, the result is the end or
   * a character that is not whitespace.
   */
  function Rewound(s: string, off: nat, n: nat, skip: bool): (r: nat)
    requires off <= |s|
    ensures off <= r <= |s|
    ensures n > 0 && off < |s| ==> off < r
    ensures n == 0 || off == |s| ==> r == off
    ensures skip && n > 0 && off < |s| ==> r == |s| || !IsWhitespace(s[r])
    decreases |s| - off
  {
    if off < |s| && n > 0 then
      var o := off + 1;
      if o < |s| && !(skip && IsWhitespace(s[o])) then Rewound(s, o, n - 1, skip) else Rewound(s, o, n, skip)
    else
      off
  }

  function AfterRewind(c: Cursor, n: nat, skip: bool): (r: Cursor)
    requires Valid(c)
    ensures r.source == c.source && Valid(r) && c.offset <= r.offset
    ensures skip && Placed(c) ==> Placed(r)
  {
    Cursor(c.source, Rewound(c.source, c.offset, n, skip))
  }

  /** `match_from_current(k)`: k is spelled out from the offset on. */
  predicate MatchesAt(c: Cursor, k: string)
  {
    c.offset + |k| <= |c.source| && c.source[c.offset..c.offset + |k|] == k
  }

  /** Rewinding over one character, skipping whitespace, is `next`. */
  lemma {:induction false} RewindOneIsNext(c: Cursor)
    requires Valid(c)
    ensures AfterRewind(c, 1, true) == AfterNext(c)
    decreases |c.source| - c.offset
  {
    var s := c.source;
    if c.offset < |s| {
      var o := c.offset + 1;
      if o < |s| && IsWhitespace(s[o]) {
        RewindOneIsNext(Cursor(s, o));
      }
    }
  }

  /**
   * Rewinding n characters over a stretch whose next n - 1 characters are
   * not whitespace lands after the stretch, past any whitespace that
   * follows it.
   */
  lemma {:induction false} RewindOverWord(s: string, off: nat, n: nat)
    requires 1 <= n && off + n <= |s|
    requires forall i :: off < i < off + n ==> !IsWhitespace(s[i])
    ensures Rewound(s, off, n, true) == SkipWhitespace(s, off + n)
    decreases n
  {
    if n == 1 {
      RewindOneIsNext(Cursor(s, off));
    } else {
      assert !IsWhitespace(s[off + 1]);
      RewindOverWord(s, off + 1, n - 1);
    }
  }

  /** Rewinding over a keyword that matches lands on what follows it. */
  lemma RewindPastKeyword(c: Cursor, k: string)
    requires MatchesAt(c, k) && |k| >= 1
    requires forall i :: 0 <= i < |k| ==> !IsWhitespace(k[i])
    ensures AfterRewind(c, |k|, true) == Cursor(c.source, SkipWhitespace(c.source, c.offset + |k|))
  {
    forall i | c.offset < i < c.offset + |k|
      ensures !IsWhitespace(c.source[i])
    {
      assert c.source[i] == k[i - c.offset];
    }
    RewindOverWord(c.source, c.offset, |k|);
  }

  /** The iterator of the test at src/syntax.rs:471-474: three characters on, whitespace skipped. */
  lemma RewindExample()
    ensures AfterRewind(Start(" 12\t 3abc"), 3, true) == Cursor(" 12\t 3abc", 6)
    ensures MatchesAt(Cursor(" 12\t 3abc", 6), "abc")
  {
    var s := " 12\t 3abc";
    assert Start(s) == Cursor(s, 1);
    assert Rewound(s, 1, 3, true) == Rewound(s, 2, 2, true);
    assert Rewound(s, 2, 2, true) == Rewound(s, 3, 2, true);
    assert Rewound(s, 3, 2, true) == Rewound(s, 4, 2, true);
    assert Rewound(s, 4, 2, true) == Rewound(s, 5, 1, true);
    assert Rewound(s, 5, 1, true) == Rewound(s, 6, 0, true);
    assert s[6..9] == "abc";
  }

  /** `ParsingIterator`: the characters of a command and the offset of the current one. */
  class ParsingIterator {
    var source: string
    var offset: nat

    function State(): Cursor
      reads this
    {
      Cursor(source, offset)
    }

    predicate Valid()
      reads this
    {
      offset <= |source|
    }

    /** `ParsingIterator::from`: the offset starts past leading whitespace. */
    constructor From(s: string)
      ensures State() == Start(s) && Valid()
    {
      var o := 0;
      while o < |s| && IsWhitespace(s[o])
        invariant o <= |s| && SkipWhitespace(s, o) == SkipWhitespace(s, 0)
      {
        o := o + 1;
      }
      source := s;
      offset := o;
    }

    /**
     * `match_from_current`: compares the characters of the sequence one by
     * one. The source counts the sequence's bytes, so it is read here as an
     * ASCII sequence, as every keyword of the grammar is.
     */
    method MatchFromCurrent(sequence: string) returns (b: bool)
      requires Valid()
      requires forall i :: 0 <= i < |sequence| ==> sequence[i] < '\U{80}'
      ensures b == MatchesAt(State(), sequence)
    {
      var i := 0;
      while i < |sequence|
        invariant i <= |sequence|
        invariant offset + i <= |source| && source[offset..offset + i] == sequence[..i]
      {
        if offset + i >= |source| || source[offset + i] != sequence[i] {
          assert !MatchesAt(State(), sequence) by {
            if offset + |sequence| <= |source| {
              assert source[offset..offset + |sequence|][i] == source[offset + i];
            }
          }
          return false;
        }
        assert source[offset..offset + i + 1] == source[offset..offset + i] + [source[offset + i]];
        assert sequence[..i + 1] == sequence[..i] + [sequence[i]];
        i := i + 1;
      }
      assert sequence[..i] == sequence;
      return true;
    }

    /** `next`: moves on and yields the new current character. */
    method Next() returns (c: Option<char>)
      requires Valid()
      modifies this
      ensures State() == AfterNext(old(State())) && Valid()
      ensures c == Current(State())
    {
      if offset < |source| {
        offset := offset + 1;
      }
      while offset < |source| && IsWhitespace(source[offset])
        invariant offset <= |source| && source == old(source)
        invariant SkipWhitespace(source, offset) == AfterNext(old(State())).offset
      {
        offset := offset + 1;
      }
      c := Current(State());
    }

    /** `rewind`: moves on n counted characters. */
    method Rewind(n: nat, skipWhitespaces: bool)
      requires Valid()
      modifies this
      ensures State() == AfterRewind(old(State()), n, skipWhitespaces) && Valid()
    {
      var skipCounter := 0;
      while offset < |source| && skipCounter < n
        invariant offset <= |source| && source == old(source) && skipCounter <= n
        invariant Rewound(source, offset, n - skipCounter, skipWhitespaces)
               == Rewound(source, old(offset), n, skipWhitespaces)
        decreases |source| - offset
      {
        offset := offset + 1;
        if offset < |source| && !(skipWhitespaces && IsWhitespace(source[offset])) {
          skipCounter := skipCounter + 1;
        }
      }
    }

    /** `rewind_n`: moves on n characters that are not whitespace. */
    method RewindN(n: nat)
      requires Valid()
      modifies this
      ensures State() == AfterRewind(old(State()), n, true) && Valid()
    {
      Rewind(n, true);
    }

    /** `rewind_n_include_whitespaces`: moves on n characters of any kind. */
    method RewindNIncludeWhitespaces(n: nat)
      requires Valid()
      modifies this
      ensures State() == AfterRewind(old(State()), n, false) && Valid()
    {
      Rewind(n, false);
    }
  }

  // ---------------------------------------------------------------------
  // Characters read as a token, whitespace left out
  // ---------------------------------------------------------------------

  /** The characters of s that are not whitespace, in order. */
  function Visible(s: string): string
  {
    if |s| == 0 then [] else (if IsWhitespace(s[0]) then [] else [s[0]]) + Visible(s[1..])
  }

  lemma {:induction false} VisibleConcat(a: string, b: string)
    ensures Visible(a + b) == Visible(a) + Visible(b)
    decreases |a|
  {
    if |a| == 0 {
      assert a + b == b;
    } else {
      assert (a + b)[0] == a[0];
      assert (a + b)[1..] == a[1..] + b;
      VisibleConcat(a[1..], b);
    }
  }

  lemma {:induction false} VisibleOfWhitespace(s: string)
    requires forall i :: 0 <= i < |s| ==> IsWhitespace(s[i])
    ensures Visible(s) == []
    decreases |s|
  {
    if |s| > 0 {
      VisibleOfWhitespace(s[1..]);
    }
  }

  /**
   * What one turn of a token loop reads: the current character, which is
   * not whitespace, and `next` passes over the whitespace after it.
   */
  lemma VisibleStep(c: Cursor, end: nat)
    requires Placed(c) && c.offset < |c.source|
    requires AfterNext(c).offset <= end <= |c.source|
    ensures Visible(c.source[c.offset..end])
         == [c.source[c.offset]] + Visible(c.source[AfterNext(c).offset..end])
  {
    var s := c.source;
    var o := c.offset;
    var o2 := AfterNext(c).offset;
    assert s[o..end] == [s[o]] + s[o + 1..o2] + s[o2..end];
    VisibleConcat([s[o]] + s[o + 1..o2], s[o2..end]);
    VisibleConcat([s[o]], s[o + 1..o2]);
    VisibleOfWhitespace(s[o + 1..o2]);
    assert Visible([s[o]]) == [s[o]] by {
      assert [s[o]][1..] == [];
    }
  }

  // ---------------------------------------------------------------------
  // syntax_index
  // ---------------------------------------------------------------------

  predicate IsDecimal(c: char)
  {
    '0' <= c <= '9'
  }

  /** `c as usize - '0' as usize`. */
  function DecimalDigit(c: char): nat
    requires IsDecimal(c)
  {
    c as int - '0' as int
  }

  /** A decimal digit after decimal digits: the value is shifted one place and the digit added. */
  lemma DecimalAppended(p: string, ch: char)
    requires Literals.AllDigits(p, 10) && IsDecimal(ch)
    ensures Literals.AllDigits(p + [ch], 10)
    ensures Literals.DigitsValue(p + [ch], 10) == Literals.DigitsValue(p, 10) * 10 + DecimalDigit(ch)
  {
    var q := p + [ch];
    assert Literals.DigitOf(ch) == Some(DecimalDigit(ch));
    assert q[..|q| - 1] == p;
  }

  /** The cursor moved forward within the same command. */
  predicate Advanced(c: Cursor, d: Cursor)
  {
    d.source == c.source && c.offset <= d.offset <= |c.source|
  }

  /**
   * The `syntax_index` loop from accumulator acc: decimal digits are read
   * with `next` between them, so whitespace between digits is passed over;
   * the usize accumulator `acc * 10 + d` panics on overflow.
   */
  function ScanIndex(c: Cursor, acc: nat): (r: Result<(Cursor, nat)>)
    requires Placed(c)
    ensures r.Ok? ==> Advanced(c, r.value.0) && Placed(r.value.0)
    ensures r.Ok? ==> Current(r.value.0).None? || !IsDecimal(Current(r.value.0).value)
    ensures r.Ok? || r.Panic?
    decreases |c.source| - c.offset
  {
    match Current(c)
    case None => Ok((c, acc))
    case Some(ch) =>
      if IsDecimal(ch) then
        var a := acc * 10 + DecimalDigit(ch);
        if a > USIZE_MAX then Panic else ScanIndex(AfterNext(c), a)
      else
        Ok((c, acc))
  }

  /** `syntax_index`: a decimal number at the current character, or none. */
  function IndexOf(c: Cursor): (r: Result<(Cursor, Option<nat>)>)
    requires Placed(c)
    ensures r.Ok? ==> Advanced(c, r.value.0) && Placed(r.value.0)
    ensures r.Ok? || r.Panic?
    ensures r.Ok? && r.value.1.None? ==> r.value.0 == c
  {
    match Current(c)
    case None => Ok((c, None))
    case Some(ch) =>
      if !IsDecimal(ch) then
        Ok((c, None))
      else
        match ScanIndex(c, 0)
        case Ok((d, v)) => Ok((d, Some(v)))
        case _ => Panic
  }

  /**
   * The digits the loop reads, between the cursor and where it stops, left
   * of whitespace, follow the digits p already read, and the result is
   * their decimal value.
   */
  lemma {:induction false} ScanIndexReads(c: Cursor, p: string)
    requires Placed(c) && Literals.AllDigits(p, 10)
    ensures var r := ScanIndex(c, Literals.DigitsValue(p, 10));
      r.Ok? ==> var read := p + Visible(c.source[c.offset..r.value.0.offset]);
        Literals.AllDigits(read, 10) && r.value.1 == Literals.DigitsValue(read, 10)
    decreases |c.source| - c.offset
  {
    var s := c.source;
    var acc := Literals.DigitsValue(p, 10);
    if ScanIndex(c, acc).Ok? && c.offset < |s| && IsDecimal(s[c.offset]) {
      var ch := s[c.offset];
      var q := p + [ch];
      DecimalAppended(p, ch);
      assert Current(c) == Some(ch);
      assert ScanIndex(c, acc) == ScanIndex(AfterNext(c), Literals.DigitsValue(q, 10));
      ScanIndexReads(AfterNext(c), q);
      var end := ScanIndex(c, acc).value.0.offset;
      VisibleStep(c, end);
      AppendMoved(p, ch, Visible(s[AfterNext(c).offset..end]));
    } else if ScanIndex(c, acc).Ok? {
      assert s[c.offset..ScanIndex(c, acc).value.0.offset] == [];
      assert p + [] == p;
    }
  }

  /** Moving a character from the front of the rest to the end of the prefix. */
  lemma AppendMoved(p: string, ch: char, rest: string)
    ensures (p + [ch]) + rest == p + ([ch] + rest)
  {
  }

  /** A number found by `syntax_index` is the decimal value of the digits passed over, whitespace left out. */
  lemma IndexValue(c: Cursor)
    requires Placed(c)
    ensures var r := IndexOf(c);
      r.Ok? && r.value.1.Some? ==> var read := Visible(c.source[c.offset..r.value.0.offset]);
        |read| >= 1 && Literals.AllDigits(read, 10) && r.value.1.value == Literals.DigitsValue(read, 10)
  {
    var r := IndexOf(c);
    if r.Ok? && r.value.1.Some? {
      assert Literals.DigitsValue([], 10) == 0;
      ScanIndexReads(c, []);
      assert [] + Visible(c.source[c.offset..r.value.0.offset]) == Visible(c.source[c.offset..r.value.0.offset]);
      VisibleStep(c, r.value.0.offset);
    }
  }

  /** Digits separated by whitespace make one number: " 1 2" is 12. */
  lemma IndexAcrossWhitespace()
    ensures IndexOf(Start(" 1 2")) == Ok((Cursor(" 1 2", 4), Some(12)))
  {
    var s := " 1 2";
    assert Start(s) == Cursor(s, 1);
    assert AfterNext(Cursor(s, 1)) == Cursor(s, 3);
    assert AfterNext(Cursor(s, 3)) == Cursor(s, 4);
  }

  /** `syntax_index` finds nothing where no digit is, and stops at the first non-digit (src/syntax.rs:485-525). */
  lemma IndexExamples()
    ensures IndexOf(Start("")) == Ok((Cursor("", 0), None))
    ensures IndexOf(Start("a1fasd")) == Ok((Cursor("a1fasd", 0), None))
    ensures IndexOf(Start("0")) == Ok((Cursor("0", 1), Some(0)))
    ensures IndexOf(Start("123adf")) == Ok((Cursor("123adf", 3), Some(123)))
  {
    assert Start("123adf") == Cursor("123adf", 0);
    assert AfterNext(Cursor("123adf", 0)) == Cursor("123adf", 1);
    assert AfterNext(Cursor("123adf", 1)) == Cursor("123adf", 2);
    assert AfterNext(Cursor("123adf", 2)) == Cursor("123adf", 3);
    assert Start("0") == Cursor("0", 0);
    assert AfterNext(Cursor("0", 0)) == Cursor("0", 1);
  }

  /** At a decimal digit, `syntax_index` is the digit loop from zero. */
  lemma IndexOfDigits(c: Cursor)
    requires Placed(c) && Current(c).Some? && IsDecimal(Current(c).value)
    ensures ScanIndex(c, 0).Ok? ==> IndexOf(c) == Ok((ScanIndex(c, 0).value.0, Some(ScanIndex(c, 0).value.1)))
    ensures ScanIndex(c, 0).Panic? ==> IndexOf(c) == Panic
  {
  }

  /**
   * One turn of the `syntax_index` loop at a decimal digit: the digit is
   * added to the accumulator, which panics past usize, and `next` moves on.
   */
  method IndexDigit(it: ParsingIterator, acc: nat) returns (r: Result<nat>)
    requires it.Valid() && Placed(it.State()) && Current(it.State()).Some? && IsDecimal(Current(it.State()).value)
    modifies it
    ensures it.Valid() && Placed(it.State()) && it.source == old(it.source)
    ensures r.Ok? ==> ScanIndex(it.State(), r.value) == ScanIndex(old(it.State()), acc)
    ensures r.Ok? || (r.Panic? && ScanIndex(old(it.State()), acc) == Panic)
    ensures r.Ok? ==> it.offset > old(it.offset)
  {
    ghost var c := it.State();
    var d := it.source[it.offset];
    assert Current(c) == Some(d);
    var a := acc * 10 + DecimalDigit(d);
    if a > USIZE_MAX {
      return Panic;
    }
    assert ScanIndex(c, acc) == ScanIndex(AfterNext(c), a);
    var _ := it.Next();
    return Ok(a);
  }

  /** `syntax_index` on a parsing iterator. */
  method SyntaxIndex(it: ParsingIterator) returns (index: Result<Option<nat>>)
    requires it.Valid() && Placed(it.State())
    modifies it
    ensures match IndexOf(old(it.State()))
      case Ok(p) => index == Ok(p.1) && it.State() == p.0
      case _ => index == Panic
  {
    var first := Current(it.State());
    if first.None? || !IsDecimal(first.value) {
      return Ok(None);
    }
    ghost var start := it.State();
    IndexOfDigits(start);
    var acc: nat := 0;
    while Current(it.State()).Some? && IsDecimal(Current(it.State()).value)
      invariant it.Valid() && Placed(it.State()) && it.source == start.source
      invariant ScanIndex(it.State(), acc) == ScanIndex(start, 0)
      decreases |it.source| - it.offset
    {
      var step := IndexDigit(it, acc);
      if step.Panic? {
        return Panic;
      }
      acc := step.value;
    }
    assert ScanIndex(it.State(), acc) == Ok((it.State(), acc));
    return Ok(Some(acc));
  }

  // ---------------------------------------------------------------------
  // Accessors: "[high:low]"
  // ---------------------------------------------------------------------

  /**
   * `syntax_range`: an optional high index, then, after ':', an optional
   * low index. A missing high index is the highest bit and a missing low
   * index the lowest, also when there is no ':' at all, so "[i]" is the
   * range from bit i down to bit 0.
   */
  function SyntaxRange(c: Cursor): (r: Result<(Cursor, BitsRange)>)
    requires Placed(c)
    ensures r.Ok? ==> Advanced(c, r.value.0) && Placed(r.value.0)
  {
    match IndexOf(c)
    case Ok((c1, left)) =>
      var high := if left.Some? then Indexed(left.value) else Highest;
      if Current(c1) == Some(':') then
        (match IndexOf(AfterRewind(c1, 1, true))
         case Ok((c2, right)) => Ok((c2, BitsRange(high, if right.Some? then Indexed(right.value) else Lowest)))
         case _ => Panic)
      else
        Ok((c1, BitsRange(high, Lowest)))
    case _ => Panic
  }

  /** `syntax_accessor`: "[range]" at the current character, or no accessor. */
  function Accessor(c: Cursor): (r: Result<(Cursor, Option<BitsRange>)>)
    requires Placed(c)
    ensures r.Ok? ==> Advanced(c, r.value.0) && Placed(r.value.0)
    ensures r.Ok? && r.value.1.None? ==> r.value.0 == c && Current(c) != Some('[')
  {
    if Current(c) == Some('[') then
      match SyntaxRange(AfterRewind(c, 1, true))
      case Ok((c1, range)) =>
        if Current(c1) == Some(']') then
          Ok((AfterRewind(c1, 1, true), Some(range)))
        else if Current(c1).Some? then
          Err("Accessor [] is not closed with ']'")
        else
          Err("Command is not complete")
      case Err(m) => Err(m)
      case Panic => Panic
    else
      Ok((c, None))
  }

  /** "[]" and "[:]" name the whole register (src/syntax.rs:575-593). */
  lemma AccessorWhole()
    ensures Accessor(Start("[]")) == Ok((Cursor("[]", 2), Some(BitsRange(Highest, Lowest))))
    ensures Accessor(Start("[:]")) == Ok((Cursor("[:]", 3), Some(BitsRange(Highest, Lowest))))
  {
    assert Start("[]") == Cursor("[]", 0);
    assert AfterRewind(Cursor("[]", 0), 1, true) == Cursor("[]", 1);
    assert AfterRewind(Cursor("[]", 1), 1, true) == Cursor("[]", 2);
    assert Start("[:]") == Cursor("[:]", 0);
    assert AfterRewind(Cursor("[:]", 0), 1, true) == Cursor("[:]", 1);
    assert AfterRewind(Cursor("[:]", 1), 1, true) == Cursor("[:]", 2);
    assert AfterRewind(Cursor("[:]", 2), 1, true) == Cursor("[:]", 3);
  }

  /** "[3:5]" reads both indices as given (src/syntax.rs:595-603). */
  lemma AccessorBothIndices()
    ensures Accessor(Start("[3:5]")) == Ok((Cursor("[3:5]", 5), Some(BitsRange(Indexed(3), Indexed(5)))))
  {
    var s := "[3:5]";
    assert Start(s) == Cursor(s, 0);
    assert AfterRewind(Cursor(s, 0), 1, true) == Cursor(s, 1);
    assert AfterNext(Cursor(s, 1)) == Cursor(s, 2);
    assert IndexOf(Cursor(s, 1)) == Ok((Cursor(s, 2), Some(3)));
    assert AfterRewind(Cursor(s, 2), 1, true) == Cursor(s, 3);
    assert AfterNext(Cursor(s, 3)) == Cursor(s, 4);
    assert IndexOf(Cursor(s, 3)) == Ok((Cursor(s, 4), Some(5)));
    assert SyntaxRange(Cursor(s, 1)) == Ok((Cursor(s, 4), BitsRange(Indexed(3), Indexed(5))));
    assert AfterRewind(Cursor(s, 4), 1, true) == Cursor(s, 5);
  }

  /** "[3:]" and "[:5]": a missing end is the lowest or the highest bit (src/syntax.rs:605-623). */
  lemma AccessorOneIndex()
    ensures Accessor(Start("[3:]")) == Ok((Cursor("[3:]", 4), Some(BitsRange(Indexed(3), Lowest))))
    ensures Accessor(Start("[:5]")) == Ok((Cursor("[:5]", 4), Some(BitsRange(Highest, Indexed(5)))))
  {
    var s := "[3:]";
    assert Start(s) == Cursor(s, 0);
    assert AfterRewind(Cursor(s, 0), 1, true) == Cursor(s, 1);
    assert AfterNext(Cursor(s, 1)) == Cursor(s, 2);
    assert IndexOf(Cursor(s, 1)) == Ok((Cursor(s, 2), Some(3)));
    assert AfterRewind(Cursor(s, 2), 1, true) == Cursor(s, 3);
    assert SyntaxRange(Cursor(s, 1)) == Ok((Cursor(s, 3), BitsRange(Indexed(3), Lowest)));
    assert AfterRewind(Cursor(s, 3), 1, true) == Cursor(s, 4);
    var t := "[:5]";
    assert Start(t) == Cursor(t, 0);
    assert AfterRewind(Cursor(t, 0), 1, true) == Cursor(t, 1);
    assert AfterRewind(Cursor(t, 1), 1, true) == Cursor(t, 2);
    assert AfterNext(Cursor(t, 2)) == Cursor(t, 3);
    assert IndexOf(Cursor(t, 2)) == Ok((Cursor(t, 3), Some(5)));
    assert SyntaxRange(Cursor(t, 1)) == Ok((Cursor(t, 3), BitsRange(Highest, Indexed(5))));
    assert AfterRewind(Cursor(t, 3), 1, true) == Cursor(t, 4);
  }

  /** "[7]" is the range from bit 7 down to bit 0, not bit 7 alone. */
  lemma AccessorSingleIndex()
    ensures Accessor(Start("[7]")) == Ok((Cursor("[7]", 3), Some(BitsRange(Indexed(7), Lowest))))
  {
    var s := "[7]";
    assert Start(s) == Cursor(s, 0);
    assert AfterRewind(Cursor(s, 0), 1, true) == Cursor(s, 1);
    assert AfterNext(Cursor(s, 1)) == Cursor(s, 2);
    assert IndexOf(Cursor(s, 1)) == Ok((Cursor(s, 2), Some(7)));
    assert SyntaxRange(Cursor(s, 1)) == Ok((Cursor(s, 2), BitsRange(Indexed(7), Lowest)));
    assert AfterRewind(Cursor(s, 2), 1, true) == Cursor(s, 3);
  }

  /** An accessor without its ']' is refused. */
  lemma AccessorUnclosed()
    ensures Accessor(Start("[7")) == Err("Command is not complete")
    ensures Accessor(Start("[7;")) == Err("Accessor [] is not closed with ']'")
  {
    assert Start("[7") == Cursor("[7", 0);
    assert AfterRewind(Cursor("[7", 0), 1, true) == Cursor("[7", 1);
    assert AfterNext(Cursor("[7", 1)) == Cursor("[7", 2);
    assert IndexOf(Cursor("[7", 1)) == Ok((Cursor("[7", 2), Some(7)));
    assert Start("[7;") == Cursor("[7;", 0);
    assert AfterRewind(Cursor("[7;", 0), 1, true) == Cursor("[7;", 1);
    assert AfterNext(Cursor("[7;", 1)) == Cursor("[7;", 2);
    assert IndexOf(Cursor("[7;", 1)) == Ok((Cursor("[7;", 2), Some(7)));
  }

  // ---------------------------------------------------------------------
  // Letters: "'c'"
  // ---------------------------------------------------------------------

  /**
   * `syntax_letter`: a quote, any one character (whitespace included), and
   * a closing quote after optional whitespace; the literal is the
   * character's code with its UTF-8 width.
   */
  function Letter(c: Cursor): (r: Result<(Cursor, RightOperandSource)>)
    requires Placed(c)
    ensures r.Ok? ==> Advanced(c, r.value.0) && Placed(r.value.0) && r.value.1.Direct?
  {
    match Current(c)
    case Some(q) =>
      if q == '\'' then
        var c1 := AfterRewind(c, 1, false);
        match Current(c1)
        case Some(x) =>
          var number := Literals.FromChar(x).value;
          var c2 := AfterRewind(c1, 1, true);
          assert Placed(c2) by {
            assert c1.offset < |c1.source|;
          }
          (match Current(c2)
           case Some(e) =>
             if e == '\'' then
               Ok((AfterRewind(c2, 1, true), Direct(number)))
             else
               Err("Letter is not closed with '\\'', only one letter allowed")
           case None => Err("Command is not complete"))
        case None => Err("Letter expected but no characters found")
      else
        Err("Given input is not a letter literal")
    case None => Err("No letter present in command as right operand")
  }

  /** Any character between quotes, a space or a quote as well, is a letter literal. */
  lemma LetterOfAnyChar(x: char)
    ensures Letter(Cursor(['\'', x, '\''], 0)) == Ok((Cursor(['\'', x, '\''], 3), Direct(Literals.FromChar(x).value)))
  {
    var s := ['\'', x, '\''];
    assert AfterRewind(Cursor(s, 0), 1, false) == Cursor(s, 1);
    assert AfterRewind(Cursor(s, 1), 1, true) == Cursor(s, 2);
    assert AfterRewind(Cursor(s, 2), 1, true) == Cursor(s, 3);
  }

  /** Two characters or none between the quotes are refused (src/syntax.rs:544-556). */
  lemma LetterRejects()
    ensures Letter(Start("'aa'")).Err?
    ensures Letter(Start("''")).Err?
  {
    assert Start("'aa'") == Cursor("'aa'", 0);
    assert AfterRewind(Cursor("'aa'", 0), 1, false) == Cursor("'aa'", 1);
    assert AfterRewind(Cursor("'aa'", 1), 1, true) == Cursor("'aa'", 2);
    assert Start("''") == Cursor("''", 0);
    assert AfterRewind(Cursor("''", 0), 1, false) == Cursor("''", 1);
    assert AfterRewind(Cursor("''", 1), 1, true) == Cursor("''", 2);
  }

  // ---------------------------------------------------------------------
  // Operators
  // ---------------------------------------------------------------------

  /** Keywords are printable ASCII and never empty. */
  predicate IsKeyword(k: string)
  {
    |k| >= 1 && Printable(k)
  }

  /** Every character is printable ASCII, so none is whitespace. */
  predicate Printable(k: string)
  {
    |k| == 0 || ('!' <= k[0] <= '~' && Printable(k[1..]))
  }

  lemma {:induction false} PrintableChars(k: string, i: nat)
    requires Printable(k) && i < |k|
    ensures '!' <= k[i] <= '~'
    decreases i
  {
    if i > 0 {
      PrintableChars(k[1..], i - 1);
    }
  }

  /**
   * The arms of `syntax_operator` that compare a keyword of several
   * characters, in order: the keyword of the first that matches, and its
   * operator.
   */
  function WordArm(c: Cursor): (r: Option<(string, Operator)>)
    ensures r.Some? ==> MatchesAt(c, r.value.0) && IsKeyword(r.value.0)
  {
    if LongWordArm(c).Some? then LongWordArm(c)
    else if ShortWordArm(c).Some? then ShortWordArm(c)
    else SymbolWordArm(c)
  }

  /** The keyword arms of words of four letters or more. */
  function LongWordArm(c: Cursor): (r: Option<(string, Operator)>)
    ensures r.Some? ==> MatchesAt(c, r.value.0) && IsKeyword(r.value.0)
  {
    if Current(c) == Some('u') && MatchesAt(c, "unsigned") then Some(("unsigned", MakeUnsigned))
    else if Current(c) == Some('s') && MatchesAt(c, "signed") then Some(("signed", MakeSigned))
    else if Current(c) == Some('h') && MatchesAt(c, "help") then Some(("help", ShowHelp))
    else if Current(c) == Some('u') && MatchesAt(c, "undo") then Some(("undo", Undo))
    else if Current(c) == Some('r') && MatchesAt(c, "redo") then Some(("redo", Redo))
    else if Current(c) == Some('r') && MatchesAt(c, "root") then Some(("root", Root))
    else None
  }

  /** The keyword arms of words of three letters. */
  function ShortWordArm(c: Cursor): (r: Option<(string, Operator)>)
    ensures r.Some? ==> MatchesAt(c, r.value.0) && IsKeyword(r.value.0)
  {
    if Current(c) == Some('r') && MatchesAt(c, "rnd") then Some(("rnd", Random))
    else if Current(c) == Some('s') && MatchesAt(c, "shf") then Some(("shf", Shuffle))
    else if Current(c) == Some('r') && MatchesAt(c, "rev") then Some(("rev", Reverse))
    else if Current(c) == Some('c') && MatchesAt(c, "cnt") then Some(("cnt", Count))
    else if Current(c) == Some('i') && MatchesAt(c, "int") then Some(("int", IntBitsWidth))
    else if Current(c) == Some('p') && MatchesAt(c, "pow") then Some(("pow", Pow))
    else None
  }

  /** The keyword arms of several symbols. */
  function SymbolWordArm(c: Cursor): (r: Option<(string, Operator)>)
    ensures r.Some? ==> MatchesAt(c, r.value.0) && IsKeyword(r.value.0)
  {
    if Current(c) == Some('~') && MatchesAt(c, "~>>") then Some(("~>>", CyclicShiftRight))
    else if Current(c) == Some('<') && MatchesAt(c, "<<~") then Some(("<<~", CyclicShiftLeft))
    else if Current(c) == Some('>') && MatchesAt(c, ">>>") then Some((">>>", UnsignedShiftRight))
    else if Current(c) == Some('<') && MatchesAt(c, "<>") then Some(("<>", Swap))
    else if Current(c) == Some('>') && MatchesAt(c, ">>") then Some((">>", SignedShiftRight))
    else if Current(c) == Some('<') && MatchesAt(c, "<<") then Some(("<<", SignedShiftLeft))
    else if Current(c) == Some('=') && MatchesAt(c, "==") then Some(("==", Equals))
    else None
  }

  /** The arms of `syntax_operator` that look at the current character alone, in order. */
  function SymbolArm(c: Cursor): (r: Option<(string, Operator)>)
    ensures r.Some? ==> MatchesAt(c, r.value.0) && IsKeyword(r.value.0) && |r.value.0| == 1
  {
    match Current(c)
    case Some(ch) =>
      (match SymbolOperator(ch)
       case Some(op) =>
         assert Printable([ch][1..]);
         Some(([ch], op))
       case None => None)
    case None => None
  }

  /** The operator of a single-character arm, and only printable characters have one. */
  function SymbolOperator(ch: char): (r: Option<Operator>)
    ensures r.Some? ==> '!' <= ch <= '~'
  {
    if ch == '?' then Some(ShowHelp)
    else if ch == '=' then Some(Assign)
    else if ch == '+' then Some(Sum)
    else if ch == '-' then Some(Sub)
    else if ch == '*' then Some(Mul)
    else if ch == '/' then Some(Div)
    else if ch == '%' then Some(Mod)
    else if ch == '>' then Some(Greater)
    else if ch == '<' then Some(Less)
    else if ch == '^' then Some(BitXor)
    else if ch == '&' then Some(BitAnd)
    else if ch == '|' then Some(BitOr)
    else if ch == '~' then Some(BitNot)
    else if ch == '!' then Some(Negate)
    else None
  }

  /** All arms of `syntax_operator`, the keyword arms first. */
  function OperatorArm(c: Cursor): (r: Option<(string, Operator)>)
    ensures r.Some? ==> MatchesAt(c, r.value.0) && IsKeyword(r.value.0)
  {
    if WordArm(c).Some? then WordArm(c) else SymbolArm(c)
  }

  /** `syntax_operator`: the operator of the arm taken, the iterator moved past its keyword. */
  function OperatorAt(c: Cursor): (r: (Cursor, Option<Operator>))
    requires Placed(c)
    ensures Advanced(c, r.0) && Placed(r.0)
    ensures r.1.None? ==> r.0 == c
    ensures r.1.Some? ==>
              OperatorArm(c).Some? && r.0 == Cursor(c.source, SkipWhitespace(c.source, c.offset + |OperatorArm(c).value.0|))
  {
    match OperatorArm(c)
    case Some((k, op)) =>
      forall i | 0 <= i < |k|
        ensures !IsWhitespace(k[i])
      {
        PrintableChars(k, i);
      }
      RewindPastKeyword(c, k);
      (AfterRewind(c, |k|, true), Some(op))
    case None => (c, None)
  }

  lemma MatchFirst(c: Cursor, k: string)
    requires |k| >= 1
    ensures MatchesAt(c, k) ==> Current(c) == Some(k[0])
  {
    if MatchesAt(c, k) {
      assert c.source[c.offset..c.offset + |k|][0] == k[0];
    }
  }

  /** A keyword that matches leaves every shorter beginning of it matching too. */
  lemma MatchPrefix(c: Cursor, k: string, m: nat)
    requires m <= |k|
    ensures MatchesAt(c, k) ==> MatchesAt(c, k[..m])
  {
    if MatchesAt(c, k) {
      assert c.source[c.offset..c.offset + m] == c.source[c.offset..c.offset + |k|][..m];
    }
  }

  /** Two keywords that differ at some position cannot both match. */
  lemma MatchesDiffer(c: Cursor, k1: string, k2: string, i: nat)
    requires i < |k1| && i < |k2| && k1[i] != k2[i]
    ensures !(MatchesAt(c, k1) && MatchesAt(c, k2))
  {
    if c.offset + |k1| <= |c.source| && c.offset + |k2| <= |c.source| {
      assert c.source[c.offset..c.offset + |k1|][i] == c.source[c.offset + i];
      assert c.source[c.offset..c.offset + |k2|][i] == c.source[c.offset + i];
    }
  }

  /** Among the keywords of '>', the longest that matches wins: ">>>", then ">>", then ">". */
  lemma GreaterKeywords(c: Cursor)
    ensures MatchesAt(c, ">>>") ==> OperatorArm(c) == Some((">>>", UnsignedShiftRight))
    ensures MatchesAt(c, ">>") && !MatchesAt(c, ">>>") ==> OperatorArm(c) == Some((">>", SignedShiftRight))
    ensures Current(c) == Some('>') && !MatchesAt(c, ">>") ==> OperatorArm(c) == Some((">", Greater))
  {
    MatchFirst(c, ">>>");
    MatchFirst(c, ">>");
    MatchPrefix(c, ">>>", 2);
  }

  /** Among the keywords of '<', the longest that matches wins: "<<~" or "<>", then "<<", then "<". */
  lemma LessKeywords(c: Cursor)
    ensures MatchesAt(c, "<<~") ==> OperatorArm(c) == Some(("<<~", CyclicShiftLeft))
    ensures MatchesAt(c, "<>") ==> OperatorArm(c) == Some(("<>", Swap))
    ensures MatchesAt(c, "<<") && !MatchesAt(c, "<<~") ==> OperatorArm(c) == Some(("<<", SignedShiftLeft))
    ensures Current(c) == Some('<') && !MatchesAt(c, "<<") && !MatchesAt(c, "<>")
        ==> OperatorArm(c) == Some(("<", Less))
  {
    MatchFirst(c, "<<~");
    MatchFirst(c, "<<");
    MatchFirst(c, "<>");
    MatchPrefix(c, "<<~", 2);
    MatchesDiffer(c, "<<~", "<>", 1);
  }

  /** "==" is equality and a lone '=' assignment; "~>>" is a cyclic shift and a lone '~' negation of bits. */
  lemma EqualsAndTildeKeywords(c: Cursor)
    ensures MatchesAt(c, "==") ==> OperatorArm(c) == Some(("==", Equals))
    ensures Current(c) == Some('=') && !MatchesAt(c, "==") ==> OperatorArm(c) == Some(("=", Assign))
    ensures MatchesAt(c, "~>>") ==> OperatorArm(c) == Some(("~>>", CyclicShiftRight))
    ensures Current(c) == Some('~') && !MatchesAt(c, "~>>") ==> OperatorArm(c) == Some(("~", BitNot))
  {
    MatchFirst(c, "==");
    MatchFirst(c, "~>>");
  }

  /** "unsigned" and "undo" share their 'u', "signed" and "shf" their 's': each is read as itself. */
  lemma SharedLetterKeywords(c: Cursor)
    ensures MatchesAt(c, "unsigned") ==> OperatorArm(c) == Some(("unsigned", MakeUnsigned))
    ensures MatchesAt(c, "undo") ==> OperatorArm(c) == Some(("undo", Undo))
    ensures MatchesAt(c, "signed") ==> OperatorArm(c) == Some(("signed", MakeSigned))
    ensures MatchesAt(c, "shf") ==> OperatorArm(c) == Some(("shf", Shuffle))
  {
    MatchFirst(c, "unsigned");
    MatchFirst(c, "signed");
    MatchFirst(c, "undo");
    MatchFirst(c, "shf");
    MatchesDiffer(c, "unsigned", "undo", 2);
    MatchesDiffer(c, "signed", "shf", 1);
  }

  /** "rev" is reached past "redo", "root" and "rnd". */
  lemma ReverseKeyword(c: Cursor)
    ensures MatchesAt(c, "rev") ==> OperatorArm(c) == Some(("rev", Reverse))
  {
    MatchFirst(c, "rev");
    MatchesDiffer(c, "rev", "redo", 2);
    MatchesDiffer(c, "rev", "root", 1);
    MatchesDiffer(c, "rev", "rnd", 1);
  }

  // ---------------------------------------------------------------------
  // Number literals
  // ---------------------------------------------------------------------

  /** The characters `syntax_number` collects, whatever the radix. */
  predicate IsLiteralChar(c: char)
  {
    IsDecimal(c) || 'a' <= c <= 'f' || 'A' <= c <= 'F'
  }

  /** The `syntax_number` loop: literal characters are appended, with `next` between them. */
  function ScanLiteral(c: Cursor, literal: string): (r: (Cursor, string))
    requires Placed(c)
    ensures Advanced(c, r.0) && Placed(r.0)
    ensures Current(r.0).None? || !IsLiteralChar(Current(r.0).value)
    decreases |c.source| - c.offset
  {
    match Current(c)
    case Some(ch) =>
      if IsLiteralChar(ch) then ScanLiteral(AfterNext(c), literal + [ch]) else (c, literal)
    case None => (c, literal)
  }

  /** The loop appends exactly the characters it passes over, whitespace left out, all of them literal characters. */
  lemma {:induction false} ScanLiteralReads(c: Cursor, literal: string)
    requires Placed(c)
    ensures var (d, l) := ScanLiteral(c, literal);
      var read := Visible(c.source[c.offset..d.offset]);
      l == literal + read && forall k :: 0 <= k < |read| ==> IsLiteralChar(read[k])
    decreases |c.source| - c.offset
  {
    var s := c.source;
    var (d, l) := ScanLiteral(c, literal);
    if c.offset < |s| && IsLiteralChar(s[c.offset]) {
      var ch := s[c.offset];
      assert Current(c) == Some(ch);
      assert ScanLiteral(c, literal) == ScanLiteral(AfterNext(c), literal + [ch]);
      ScanLiteralReads(AfterNext(c), literal + [ch]);
      VisibleStep(c, d.offset);
      var rest := Visible(s[AfterNext(c).offset..d.offset]);
      AppendMoved(literal, ch, rest);
      forall k | 0 <= k < |[ch] + rest|
        ensures IsLiteralChar(([ch] + rest)[k])
      {
        if k > 0 {
          assert ([ch] + rest)[k] == rest[k - 1];
        }
      }
    } else {
      assert s[c.offset..d.offset] == [];
    }
  }

  /** `from_str`'s result as the source's `match`, with a register snapshot as the literal. */
  function LiteralOperand(r: Result<NumberState>): Result<RightOperandSource>
  {
    match r
    case Ok(n) => Ok(Direct(n))
    case Err(m) => Err(m)
    case Panic => Panic
  }

  /** `syntax_number`: the literal characters from here, after a '-' when negative, read by `from_str`. */
  function NumberLiteral(c: Cursor, radix: nat, isNegative: bool): (r: Result<(Cursor, RightOperandSource)>)
    requires Placed(c)
    ensures r.Ok? ==> Advanced(c, r.value.0) && Placed(r.value.0) && r.value.1.Direct?
  {
    var (d, literal) := ScanLiteral(c, if isNegative then "-" else "");
    match LiteralOperand(Literals.ParsedNumber(literal, radix))
    case Ok(v) => Ok((d, v))
    case Err(m) => Err(m)
    case Panic => Panic
  }

  /** `syntax_number` on a parsing iterator. */
  method SyntaxNumber(it: ParsingIterator, radix: nat, isNegative: bool) returns (r: Result<RightOperandSource>)
    requires it.Valid() && Placed(it.State())
    modifies it
    ensures match NumberLiteral(old(it.State()), radix, isNegative)
      case Ok(p) => r == Ok(p.1) && it.State() == p.0
      case Err(m) => r == Err(m)
      case Panic => r == Panic
  {
    ghost var start := it.State();
    var numberLiteral := if isNegative then "-" else "";
    while Current(it.State()).Some? && IsLiteralChar(Current(it.State()).value)
      invariant it.Valid() && Placed(it.State()) && it.source == start.source
      invariant ScanLiteral(it.State(), numberLiteral) == ScanLiteral(start, if isNegative then "-" else "")
      decreases |it.source| - it.offset
    {
      numberLiteral := numberLiteral + [it.source[it.offset]];
      var _ := it.Next();
    }
    var number := Register.Number.FromStr(numberLiteral, radix);
    match number
    case Ok(n) =>
      r := Ok(Direct(n.State()));
    case Err(m) =>
      r := Err(m);
    case Panic =>
      r := Panic;
  }

  /**
   * `syntax_radix_number`, after a leading '0': a radix letter, an
   * arbitrary radix "(N)" of at most 37, or the end of the command, which
   * is the literal 0.
   */
  function RadixNumber(c: Cursor, isNegative: bool): (r: Result<(Cursor, RightOperandSource)>)
    requires Placed(c)
    ensures r.Ok? ==> Advanced(c, r.value.0) && Placed(r.value.0) && r.value.1.Direct?
  {
    match Current(c)
    case Some(ch) =>
      if ch == 'b' || ch == 'B' then NumberLiteral(AfterRewind(c, 1, true), 2, isNegative)
      else if ch == 'o' || ch == 'O' then NumberLiteral(AfterRewind(c, 1, true), 8, isNegative)
      else if ch == 'd' || ch == 'D' then NumberLiteral(AfterRewind(c, 1, true), 10, isNegative)
      else if ch == 'h' || ch == 'H' || ch == 'x' || ch == 'X' then NumberLiteral(AfterRewind(c, 1, true), 16, isNegative)
      else if ch == '(' then
        match IndexOf(AfterRewind(c, 1, true))
        case Ok((c1, Some(radix))) =>
          if Current(c1) == Some(')') then
            if radix > 37 then
              Err("Arbitrary radix is too big - " + Decimal(radix)
                  + ", must be small enough to write numbers in it with '0'..'9' + 'a'..'z'")
            else
              NumberLiteral(AfterRewind(c1, 1, true), radix, isNegative)
          else
            Err("Arbitrary radix must be closed with ')'")
        case Ok((_, None)) => Err("Arbitrary radix must not be empty")
        case _ => Panic
      else
        Err("Bad radix letter '" + [ch] + "'")
    case None =>
      // `Number::from_str("0", 10).unwrap()`
      match LiteralOperand(Literals.ParsedNumber("0", 10))
      case Ok(v) => Ok((c, v))
      case _ => Panic
  }

  /** `syntax_negative_number`, after the '-'. */
  function NegativeNumber(c: Cursor): (r: Result<(Cursor, RightOperandSource)>)
    requires Placed(c)
    ensures r.Ok? ==> Advanced(c, r.value.0) && Placed(r.value.0) && r.value.1.Direct?
  {
    match Current(c)
    case Some(ch) =>
      if '1' <= ch <= '9' then NumberLiteral(c, 10, true)
      else if ch == '0' then RadixNumber(AfterRewind(c, 1, true), true)
      else Err("Bad number syntax")
    case None => Err("Bad negative number syntax")
  }

  /** `syntax_rvalue`: a range, a number, a negative number, a letter, or nothing at the end. */
  function Rvalue(c: Cursor): (r: Result<(Cursor, RightOperandSource)>)
    requires Placed(c)
    ensures r.Ok? ==> Advanced(c, r.value.0) && Placed(r.value.0)
    ensures r.Ok? && r.value.1.Empty? <==> Current(c).None?
  {
    match Current(c)
    case Some(ch) =>
      if ch == '[' then
        match Accessor(c)
        case Ok((d, Some(range))) => Ok((d, RightRange(range)))
        case Ok((_, None)) => Err("Range access in right value must be correct")
        case Err(m) => Err(m)
        case Panic => Panic
      else if '1' <= ch <= '9' then NumberLiteral(c, 10, false)
      else if ch == '0' then RadixNumber(AfterRewind(c, 1, true), false)
      else if ch == '-' then NegativeNumber(AfterRewind(c, 1, true))
      else if ch == '\'' then Letter(c)
      else Err("number or range had been expected, but '" + c.source[c.offset..] + "' was found")
    case None => Ok((c, Empty))
  }

  /** Only literal characters are collected: a letter a radix could use but which is not one stays behind. */
  lemma LiteralStopsAtNonHex()
    ensures ScanLiteral(Cursor("1g", 0), "") == (Cursor("1g", 1), "1")
    ensures ScanLiteral(Cursor("1 2", 0), "") == (Cursor("1 2", 3), "12")
  {
    assert AfterNext(Cursor("1g", 0)) == Cursor("1g", 1);
    assert "" + ['1'] == "1";
    assert AfterNext(Cursor("1 2", 0)) == Cursor("1 2", 2);
    assert AfterNext(Cursor("1 2", 2)) == Cursor("1 2", 3);
    assert "1" + ['2'] == "12";
  }

  /** An arbitrary radix above 37 is refused. */
  lemma RadixTooBig()
    ensures RadixNumber(Cursor("(38)1", 0), false)
         == Err("Arbitrary radix is too big - " + Decimal(38)
                + ", must be small enough to write numbers in it with '0'..'9' + 'a'..'z'")
  {
    var s := "(38)1";
    assert AfterRewind(Cursor(s, 0), 1, true) == Cursor(s, 1);
    assert AfterNext(Cursor(s, 1)) == Cursor(s, 2);
    assert AfterNext(Cursor(s, 2)) == Cursor(s, 3);
    assert ScanIndex(Cursor(s, 2), 3) == Ok((Cursor(s, 3), 38));
    RadixRefused(Cursor(s, 0), Cursor(s, 3), 38, false);
  }

  /** The arm of an arbitrary radix that is closed but above 37. */
  lemma RadixRefused(c: Cursor, c1: Cursor, radix: nat, isNegative: bool)
    requires Placed(c) && Current(c) == Some('(')
    requires IndexOf(AfterRewind(c, 1, true)) == Ok((c1, Some(radix)))
    requires Current(c1) == Some(')') && radix > 37
    ensures RadixNumber(c, isNegative)
         == Err("Arbitrary radix is too big - " + Decimal(radix)
                + ", must be small enough to write numbers in it with '0'..'9' + 'a'..'z'")
  {
  }

  /** An arbitrary radix must be closed and must not be empty. */
  lemma RadixMalformed()
    ensures RadixNumber(Cursor("(1", 0), false) == Err("Arbitrary radix must be closed with ')'")
    ensures RadixNumber(Cursor("()", 0), false) == Err("Arbitrary radix must not be empty")
  {
    assert AfterRewind(Cursor("(1", 0), 1, true) == Cursor("(1", 1);
    assert AfterNext(Cursor("(1", 1)) == Cursor("(1", 2);
    assert ScanIndex(Cursor("(1", 2), 1) == Ok((Cursor("(1", 2), 1));
    assert IndexOf(Cursor("(1", 1)) == Ok((Cursor("(1", 2), Some(1)));
    assert AfterRewind(Cursor("()", 0), 1, true) == Cursor("()", 1);
    assert IndexOf(Cursor("()", 1)) == Ok((Cursor("()", 1), None));
  }

  /** A '0' that ends the command is the literal 0. */
  lemma RadixAtEnd()
    ensures RadixNumber(Cursor("", 0), false) == Ok((Cursor("", 0), Direct(NumberState(0, 8, Integer, false, false))))
  {
    Literals.ZeroLiteral();
  }

  // ---------------------------------------------------------------------
  // parse
  // ---------------------------------------------------------------------

  /** A parsed command: the left operand, the handler and the right operand. */
  datatype Command = Command(left: LeftOperandSource, operator: Operator, right: RightOperandSource)

  /** The error for what is left over after the right operand. */
  function LeftoverMessage(rest: string): string
  {
    "Could not parse all symbols in command, left '" + rest + "'"
  }

  /**
   * `parse`: an optional accessor (the whole register by default), an
   * optional operator (assignment by default), an optional right operand,
   * and nothing but whitespace after it.
   */
  function Parse(cmd: string): (r: Result<Command>)
    ensures r.Ok? ==> r.value.left.LeftRange?
  {
    match Accessor(Start(cmd))
    case Ok((c1, range)) =>
      var left := LeftRange(if range.Some? then range.value else Full);
      var (c2, op) := OperatorAt(c1);
      var handler := if op.Some? then op.value else Assign;
      (match Rvalue(c2)
       case Ok((c3, right)) =>
         if Current(c3).Some? then
           Err(LeftoverMessage(c3.source[c3.offset..]))
         else
           Ok(Command(left, handler, right))
       case Err(m) => Err(m)
       case Panic => Panic)
    case Err(m) => Err(m)
    case Panic => Panic
  }

  /**
   * How `parse` chains its rules once the accessor and the operator are
   * read: the right operand decides, and it must end the command.
   */
  lemma ParseChain(cmd: string, c1: Cursor, range: Option<BitsRange>, c2: Cursor, op: Option<Operator>)
    requires Accessor(Start(cmd)) == Ok((c1, range))
    requires OperatorAt(c1) == (c2, op)
    ensures Parse(cmd) == match Rvalue(c2)
      case Ok((c3, right)) =>
        if Current(c3).Some? then Err(LeftoverMessage(c3.source[c3.offset..]))
        else Ok(Command(LeftRange(if range.Some? then range.value else Full), if op.Some? then op.value else Assign, right))
      case Err(m) => Err(m)
      case Panic => Panic
  {
  }

  /** A command that does not open with '[' works on the whole register. */
  lemma ParseWithoutAccessor(cmd: string)
    requires Current(Start(cmd)) != Some('[') && Parse(cmd).Ok?
    ensures Parse(cmd).value.left == LeftRange(Full)
  {
  }

  /**
   * A command that opens with a digit names neither a range nor an
   * operator: it assigns the literal to the whole register.
   */
  lemma ParseDigitFirst(cmd: string)
    requires Current(Start(cmd)).Some? && '0' <= Current(Start(cmd)).value <= '9' && Parse(cmd).Ok?
    ensures Parse(cmd).value.left == LeftRange(Full) && Parse(cmd).value.operator == Assign
    ensures Parse(cmd).value.right.Direct?
  {
    var c := Start(cmd);
    NoOperatorAtDigit(c);
    assert Accessor(c) == Ok((c, None));
    assert OperatorAt(c) == (c, None);
  }

  /** No keyword of `syntax_operator` starts with a digit. */
  lemma NoOperatorAtDigit(c: Cursor)
    requires Current(c).Some? && '0' <= Current(c).value <= '9'
    ensures OperatorArm(c).None?
  {
    assert LongWordArm(c).None?;
    assert ShortWordArm(c).None?;
    assert SymbolWordArm(c).None?;
  }

  /**
   * A command that opens with '-' is a subtraction: operators are read
   * before operands, so the '-' never starts a negative literal there.
   */
  lemma ParseMinusFirst(cmd: string)
    requires Current(Start(cmd)) == Some('-') && Parse(cmd).Ok?
    ensures Parse(cmd).value.left == LeftRange(Full) && Parse(cmd).value.operator == Sub
  {
    MinusOperator(Start(cmd));
  }

  lemma MinusOperator(c: Cursor)
    requires Current(c) == Some('-')
    ensures OperatorArm(c) == Some(("-", Sub))
  {
    assert LongWordArm(c).None?;
    assert ShortWordArm(c).None?;
    assert SymbolWordArm(c).None?;
  }

  lemma {:induction false} SkipAllWhitespace(s: string, off: nat)
    requires off <= |s|
    requires forall i :: off <= i < |s| ==> IsWhitespace(s[i])
    ensures SkipWhitespace(s, off) == |s|
    decreases |s| - off
  {
    if off < |s| {
      SkipAllWhitespace(s, off + 1);
    }
  }

  /** A command of whitespace alone assigns nothing to the whole register. */
  lemma ParseBlank(cmd: string)
    requires forall i :: 0 <= i < |cmd| ==> IsWhitespace(cmd[i])
    ensures Parse(cmd) == Ok(Command(LeftRange(Full), Assign, Empty))
  {
    SkipAllWhitespace(cmd, 0);
    var c := Start(cmd);
    assert OperatorArm(c).None?;
  }

  /** "1" assigns the eight-bit literal 1 to the whole register. */
  lemma ParseLiteral()
    ensures Parse("1") == Ok(Command(LeftRange(Full), Assign, Direct(NumberState(1, 8, Integer, false, false))))
  {
    var s := "1";
    var c := Cursor(s, 0);
    assert Start(s) == c;
    NoOperatorAtDigit(c);
    assert AfterNext(c) == Cursor(s, 1);
    assert "" + ['1'] == "1";
    assert ScanLiteral(c, "") == (Cursor(s, 1), "1");
    Literals.OneLiteral();
  }

  /** "-1" subtracts the literal 1: it is not the literal -1. */
  lemma ParseMinusOne()
    ensures Parse("-1") == Ok(Command(LeftRange(Full), Sub, Direct(NumberState(1, 8, Integer, false, false))))
  {
    var s := "-1";
    var c := Cursor(s, 0);
    assert Start(s) == c;
    MinusOperator(c);
    assert SkipWhitespace(s, 1) == 1;
    var c1 := Cursor(s, 1);
    assert AfterNext(c1) == Cursor(s, 2);
    assert "" + ['1'] == "1";
    assert ScanLiteral(c1, "") == (Cursor(s, 2), "1");
    Literals.OneLiteral();
  }

  /** A command with neither accessor nor operator: the right operand, then nothing. */
  lemma ParseAssignment(cmd: string, d: Cursor, v: RightOperandSource)
    requires Current(Start(cmd)) != Some('[') && OperatorArm(Start(cmd)).None?
    requires Rvalue(Start(cmd)) == Ok((d, v))
    ensures Current(d).Some? ==> Parse(cmd) == Err(LeftoverMessage(d.source[d.offset..]))
    ensures Current(d).None? ==> Parse(cmd) == Ok(Command(LeftRange(Full), Assign, v))
  {
    assert Accessor(Start(cmd)) == Ok((Start(cmd), None));
    ParseChain(cmd, Start(cmd), None, Start(cmd), None);
  }

  /** Whatever follows the right operand is refused, with the rest of the command in the message. */
  lemma ParseLeftover()
    ensures Parse("1]") == Err(LeftoverMessage("]"))
  {
    var s := "1]";
    var c := Cursor(s, 0);
    assert Start(s) == c;
    NoOperatorAtDigit(c);
    assert AfterNext(c) == Cursor(s, 1);
    assert "" + ['1'] == "1";
    assert ScanLiteral(c, "") == (Cursor(s, 1), "1");
    Literals.OneLiteral();
    var v := Direct(NumberState(1, 8, Integer, false, false));
    assert Rvalue(c) == Ok((Cursor(s, 1), v));
    ParseAssignment(s, Cursor(s, 1), v);
    assert s[1..] == "]";
  }
}
