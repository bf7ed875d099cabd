// The older command parser of src/syntax/mod.rs.
//
// It knows three operators ("<<", "=", "+") and works on an ASCII command
// from which all whitespace has been removed first. The iterator is a byte
// sequence and an offset that moves one byte at a time; its loops are
// methods of the class `ParsingIterator` proved equal to functions on
// `Cursor` values, and the grammar, which threads the iterator by value, is
// written as functions on those values.
module LegacySyntax {
  import opened Results
  import opened LegacyNumbers
  import Numbers
  import Syntax

  // ---------------------------------------------------------------------
  // What a command names
  // ---------------------------------------------------------------------

  datatype NamedAccess = Exponent | Fraction | Carry | NoAccess

  /**
   * An operand: a range of the register, a named part, or a literal. A
   * literal is kept as its digits and radix, from which `Number::from`
   * builds the register deterministically.
   */
  datatype OperandSource =
    | RangeSource(range: BitsRange)
    | NamedAccessSource(access: NamedAccess)
    | DirectSource(literal: string, radix: nat)

  /** The handler a command selects (a function pointer in the source). */
  datatype Operator = Assign | Sum | UnsignedShiftLeft

  /** A parsed command: the left operand, the handler and the right operand. */
  datatype Command = Command(left: OperandSource, operator: Operator, right: OperandSource)

  // ---------------------------------------------------------------------
  // The iterator
  // ---------------------------------------------------------------------

  predicate IsAscii(s: string)
  {
    forall i :: 0 <= i < |s| ==> s[i] < '\U{80}'
  }

  /** The value of a `ParsingIterator`: the command's bytes and the offset into them. */
  datatype Cursor = Cursor(source: string, offset: nat)

  /** The offset has not gone past the end. */
  predicate Valid(c: Cursor)
  {
    c.offset <= |c.source|
  }

  /** `ParsingIterator::from`: an iterator at the first byte, for an ASCII command only. */
  function Start(s: string): (r: Result<Cursor>)
    ensures r.Ok? <==> IsAscii(s)
    ensures r.Ok? ==> r.value.source == s && r.value.offset == 0
    ensures !r.Ok? ==> r == Err("given string is not ascii")
  {
    if IsAscii(s) then Ok(Cursor(s, 0)) else Err("given string is not ascii")
  }

  /** `current`: the byte at the offset, none at or past the end. */
  function Current(c: Cursor): (r: Option<char>)
    ensures r.None? <==> c.offset >= |c.source|
  {
    if c.offset < |c.source| then Some(c.source[c.offset]) else None
  }

  /** `next`: one byte on unless at the end; the offset never passes the end by it. */
  function AfterNext(c: Cursor): (r: Cursor)
    ensures r.source == c.source && c.offset <= r.offset
    ensures r.offset <= Max(c.offset, |c.source|)
    ensures Current(c).Some? ==> r.offset == c.offset + 1
    ensures Current(c).None? ==> r == c
  {
    Cursor(c.source, if c.offset < |c.source| then c.offset + 1 else c.offset)
  }

  /** `rewind_n`: the offset moved on n bytes, unchecked. */
  function Rewound(c: Cursor, n: nat): Cursor
  {
    Cursor(c.source, c.offset + n)
  }

  /** `match_from_current(k)`: the bytes from the offset on start with k. */
  predicate MatchesAt(c: Cursor, k: string)
  {
    c.offset + |k| <= |c.source| && c.source[c.offset..c.offset + |k|] == k
  }

  /** `ParsingIterator`: the bytes of a command and the offset of the current one. */
  class ParsingIterator {
    var source: string
    var offset: nat

    function State(): Cursor
      reads this
    {
      Cursor(source, offset)
    }

    /** The iterator `from` builds: at the first byte. */
    constructor (s: string)
      ensures State() == Cursor(s, 0)
    {
      source := s;
      offset := 0;
    }

    /**
     * `match_from_current`: compares the bytes of the sequence one by one.
     * The sequence is read as ASCII, as every one the grammar uses is.
     */
    method MatchFromCurrent(sequence: string) returns (b: bool)
      requires Valid(State()) && IsAscii(sequence)
      ensures b == MatchesAt(State(), sequence)
    {
      for i := 0 to |sequence|
        invariant offset + i <= |source| && source[offset..offset + i] == sequence[..i]
      {
        if offset + i >= |source| || source[offset + i] != sequence[i] {
          assert !MatchesAt(State(), sequence) by {
            if offset + |sequence| <= |source| {
              assert source[offset..offset + |sequence|][i] == source[offset + i];
            }
          }
          return false;
        }
        assert source[offset..offset + i + 1] == source[offset..offset + i] + [source[offset + i]];
        assert sequence[..i + 1] == sequence[..i] + [sequence[i]];
      }
      assert sequence[..|sequence|] == sequence;
      return true;
    }

    /** `next`: moves on and yields the new current byte. */
    method Next() returns (c: Option<char>)
      modifies this
      ensures State() == AfterNext(old(State()))
      ensures c == Current(State())
    {
      if offset < |source| {
        offset := offset + 1;
      }
      c := Current(State());
    }

    /** `rewind_n`: moves on n bytes. */
    method RewindN(n: nat)
      modifies this
      ensures State() == Rewound(old(State()), n)
    {
      offset := offset + n;
    }

    /** `rewind`: moves on one byte. */
    method Rewind()
      modifies this
      ensures State() == Rewound(old(State()), 1)
    {
      RewindN(1);
    }
  }

  /** `ParsingIterator::from` on a fresh iterator: refused unless the command is ASCII. */
  method From(s: string) returns (r: Result<ParsingIterator>)
    ensures r.Ok? <==> IsAscii(s)
    ensures r.Ok? ==> fresh(r.value) && Start(s) == Ok(r.value.State())
    ensures !r.Ok? ==> r == Err("given string is not ascii")
  {
    if !IsAscii(s) {
      return Err("given string is not ascii");
    }
    var it := new ParsingIterator(s);
    return Ok(it);
  }

  /** The iterator of the tests at src/syntax/mod.rs:243-270: `next` stays at the end of "" and moves on in "abc". */
  lemma IteratorExamples()
    ensures Start("") == Ok(Cursor("", 0)) && Current(Cursor("", 0)).None?
    ensures AfterNext(Cursor("", 0)) == Cursor("", 0)
    ensures Start("abc") == Ok(Cursor("abc", 0)) && Current(Cursor("abc", 0)) == Some('a')
    ensures AfterNext(Cursor("abc", 0)) == Cursor("abc", 1) && Current(Cursor("abc", 1)) == Some('b')
  {
  }

  /** A command with a byte outside ASCII is refused (src/syntax/mod.rs:237-241). */
  lemma NonAsciiRefused()
    ensures Start("これ") == Err("given string is not ascii")
  {
    assert "これ"[0] >= '\U{80}';
  }

  /** `match_from_current` on "abc" as the offset moves (src/syntax/mod.rs:272-297). */
  lemma MatchExamples()
    ensures MatchesAt(Cursor("abc", 0), "a") && MatchesAt(Cursor("abc", 0), "ab") && MatchesAt(Cursor("abc", 0), "abc")
    ensures !MatchesAt(Cursor("abc", 1), "a") && MatchesAt(Cursor("abc", 1), "b") && MatchesAt(Cursor("abc", 1), "bc")
    ensures !MatchesAt(Cursor("abc", 2), "b") && MatchesAt(Cursor("abc", 2), "c")
    ensures Current(Cursor("abc", 3)).None? && !MatchesAt(Cursor("abc", 3), "c") && !MatchesAt(Cursor("abc", 3), "abc")
  {
    var s := "abc";
    assert s[0..1] == "a" && s[0..2] == "ab" && s[0..3] == "abc";
    assert s[1..2] == "b" && s[1..3] == "bc";
    assert s[2..3] == "c";
    assert s[1..2] != "a" by { assert s[1..2][0] == 'b'; }
    assert s[2..3] != "b" by { assert s[2..3][0] == 'c'; }
  }

  // ---------------------------------------------------------------------
  // syntax_index
  // ---------------------------------------------------------------------

  predicate IsDecimal(c: char)
  {
    '0' <= c <= '9'
  }

  /** The cursor moved forward within the same command and not past its end. */
  predicate Advanced(c: Cursor, d: Cursor)
  {
    d.source == c.source && c.offset <= d.offset <= |c.source|
  }

  /**
   * The `syntax_index` loop from accumulator acc: decimal digits are read
   * with `next` between them; the usize accumulator `acc * 10 + d` panics
   * on overflow.
   */
  function ScanIndex(c: Cursor, acc: nat): (r: Result<(Cursor, nat)>)
    requires Valid(c)
    ensures r.Ok? ==> Advanced(c, r.value.0)
    ensures r.Ok? ==> Current(r.value.0).None? || !IsDecimal(Current(r.value.0).value)
    ensures r.Ok? || r.Panic?
    decreases |c.source| - c.offset
  {
    match Current(c)
    case None => Ok((c, acc))
    case Some(ch) =>
      if IsDecimal(ch) then
        var a := acc * 10 + DigitOf(ch);
        if a > USIZE_MAX then Panic else ScanIndex(AfterNext(c), a)
      else
        Ok((c, acc))
  }

  /**
   * `syntax_index`: a decimal number at the current byte, or none, with
   * the iterator unchanged, exactly when the current byte is not a digit.
   */
  function IndexOf(c: Cursor): (r: Result<(Cursor, Option<nat>)>)
    requires Valid(c)
    ensures r.Ok? ==> Advanced(c, r.value.0)
    ensures r.Ok? || r.Panic?
    ensures r.Ok? && r.value.1.None? ==> r.value.0 == c
    ensures r.Ok? ==> (r.value.1.None? <==> Current(c).None? || !IsDecimal(Current(c).value))
  {
    match Current(c)
    case None => Ok((c, None))
    case Some(ch) =>
      if !IsDecimal(ch) then
        Ok((c, None))
      else
        match ScanIndex(c, 0)
        case Ok((d, v)) => Ok((d, Some(v)))
        case _ => Panic
  }

  /** Every byte of s is a decimal digit. */
  predicate AllDecimal(s: string)
  {
    forall i :: 0 <= i < |s| ==> IsDecimal(s[i])
  }

  /** A decimal digit after decimal digits: the value is shifted one place and the digit added. */
  lemma DecimalAppended(p: string, ch: char)
    requires AllDecimal(p) && IsDecimal(ch)
    ensures AllDecimal(p + [ch])
    ensures DigitsValue(p + [ch], 10) == DigitsValue(p, 10) * 10 + DigitOf(ch)
  {
    var q := p + [ch];
    assert q[..|q| - 1] == p;
  }

  /** A slice is its first element before the rest of it. */
  lemma SliceCons(s: string, i: nat, j: nat)
    requires i < j <= |s|
    ensures s[i..j] == [s[i]] + s[i + 1..j]
  {
  }

  /** One turn of the `syntax_index` loop at a digit that keeps the accumulator within a usize. */
  lemma IndexStep(s: string, i: nat, acc: nat)
    requires i < |s| && IsDecimal(s[i]) && acc * 10 + DigitOf(s[i]) <= USIZE_MAX
    ensures ScanIndex(Cursor(s, i), acc) == ScanIndex(Cursor(s, i + 1), acc * 10 + DigitOf(s[i]))
  {
    assert Current(Cursor(s, i)) == Some(s[i]);
  }

  /**
   * The bytes the loop passes over follow the digits p already read, they
   * are all digits, and the result is the decimal value of them all.
   */
  lemma {:induction false} ScanIndexReads(c: Cursor, p: string)
    requires Valid(c) && AllDecimal(p)
    ensures var r := ScanIndex(c, DigitsValue(p, 10));
      r.Ok? ==> var read := p + c.source[c.offset..r.value.0.offset];
        AllDecimal(read) && r.value.1 == DigitsValue(read, 10)
    decreases |c.source| - c.offset
  {
    var s := c.source;
    var acc := DigitsValue(p, 10);
    var r := ScanIndex(c, acc);
    if r.Ok? && c.offset < |s| && IsDecimal(s[c.offset]) {
      var ch := s[c.offset];
      var q := p + [ch];
      DecimalAppended(p, ch);
      assert Current(c) == Some(ch);
      assert r == ScanIndex(AfterNext(c), DigitsValue(q, 10));
      ScanIndexReads(AfterNext(c), q);
      var end := r.value.0.offset;
      var rest := s[c.offset + 1..end];
      SliceCons(s, c.offset, end);
      Syntax.AppendMoved(p, ch, rest);
      assert p + s[c.offset..end] == q + rest;
    } else if r.Ok? {
      assert r == Ok((c, acc));
      assert s[c.offset..c.offset] == [];
      assert p + [] == p;
    }
  }

  /**
   * A number found by `syntax_index` is the decimal value of the maximal
   * run of digits at the iterator, which it passes over.
   */
  lemma IndexValue(c: Cursor)
    requires Valid(c)
    ensures var r := IndexOf(c);
      r.Ok? && r.value.1.Some? ==> var read := c.source[c.offset..r.value.0.offset];
        |read| >= 1 && AllDecimal(read) && r.value.1.value == DigitsValue(read, 10)
        && (Current(r.value.0).None? || !IsDecimal(Current(r.value.0).value))
  {
    var r := IndexOf(c);
    if r.Ok? && r.value.1.Some? {
      assert DigitsValue([], 10) == 0;
      ScanIndexReads(c, []);
      assert [] + c.source[c.offset..r.value.0.offset] == c.source[c.offset..r.value.0.offset];
    }
  }

  /** The loop reads the rest of a command of digits whose value fits in a usize. */
  lemma {:induction false} ScanWholeRun(s: string, i: nat)
    requires i <= |s| && AllDecimal(s) && DigitsValue(s, 10) <= USIZE_MAX
    ensures ScanIndex(Cursor(s, i), DigitsValue(s[..i], 10)) == Ok((Cursor(s, |s|), DigitsValue(s, 10)))
    decreases |s| - i
  {
    if i < |s| {
      DigitsStep(s, i, 10);
      PrefixValueBounded(s, i + 1, 10);
      assert Current(Cursor(s, i)) == Some(s[i]);
      ScanWholeRun(s, i + 1);
    } else {
      assert s[..i] == s;
    }
  }

  /** A command of digits whose value fits in a usize is read whole, as `usize::MAX` is (src/syntax/mod.rs:311-315). */
  lemma IndexOfRun(s: string)
    requires |s| >= 1 && AllDecimal(s) && DigitsValue(s, 10) <= USIZE_MAX
    ensures IndexOf(Cursor(s, 0)) == Ok((Cursor(s, |s|), Some(DigitsValue(s, 10))))
  {
    assert s[..0] == [];
    ScanWholeRun(s, 0);
  }

  /** `syntax_index` finds nothing where no digit is, leaving the iterator (src/syntax/mod.rs:299-305, 316-326). */
  lemma IndexAbsent()
    ensures IndexOf(Cursor("", 0)) == Ok((Cursor("", 0), None))
    ensures IndexOf(Cursor("a1fasd", 0)) == Ok((Cursor("a1fasd", 0), None))
  {
  }

  /** `syntax_index` reads "0" whole and stops at the first non-digit of "123adf" (src/syntax/mod.rs:306-310, 327-338). */
  lemma IndexExamples()
    ensures IndexOf(Cursor("0", 0)) == Ok((Cursor("0", 1), Some(0)))
    ensures IndexOf(Cursor("123adf", 0)) == Ok((Cursor("123adf", 3), Some(123)))
  {
    IndexStep("0", 0, 0);
    DigitsThenLetters();
  }

  lemma DigitsThenLetters()
    ensures IndexOf(Cursor("123adf", 0)) == Ok((Cursor("123adf", 3), Some(123)))
  {
    var s := "123adf";
    IndexStep(s, 0, 0);
    IndexStep(s, 1, 1);
    IndexStep(s, 2, 12);
    assert ScanIndex(Cursor(s, 3), 123) == Ok((Cursor(s, 3), 123));
  }

  /** `syntax_index` on a parsing iterator. */
  method SyntaxIndex(it: ParsingIterator) returns (index: Result<Option<nat>>)
    requires Valid(it.State())
    modifies it
    ensures match IndexOf(old(it.State()))
      case Ok(p) => index == Ok(p.1) && it.State() == p.0
      case _ => index == Panic
  {
    var first := Current(it.State());
    if first.None? || !IsDecimal(first.value) {
      return Ok(None);
    }
    ghost var start := it.State();
    var acc: nat := 0;
    while Current(it.State()).Some? && IsDecimal(Current(it.State()).value)
      invariant Valid(it.State()) && it.source == start.source
      invariant ScanIndex(it.State(), acc) == ScanIndex(start, 0)
      decreases |it.source| - it.offset
    {
      var d := it.source[it.offset];
      var a := acc * 10 + DigitOf(d);
      if a > USIZE_MAX {
        return Panic;
      }
      assert ScanIndex(it.State(), acc) == ScanIndex(AfterNext(it.State()), a);
      var _ := it.Next();
      acc := a;
    }
    assert ScanIndex(it.State(), acc) == Ok((it.State(), acc));
    return Ok(Some(acc));
  }

  // ---------------------------------------------------------------------
  // Accessors: "[high:low]"
  // ---------------------------------------------------------------------

  /**
   * `syntax_range`: an optional high index, then, after ':', an optional
   * low index. A missing high index is the highest bit. After ':' a
   * missing low index is the lowest bit; without ':' the low end is the
   * high end, unless the command ends there, when it is the lowest bit.
   */
  function SyntaxRange(c: Cursor): (r: Result<(Cursor, BitsRange)>)
    requires Valid(c)
    ensures r.Ok? ==> Advanced(c, r.value.0)
    ensures r.Ok? || r.Panic?
  {
    match IndexOf(c)
    case Ok((c1, left)) =>
      var high := if left.Some? then Indexed(left.value) else Highest;
      (match Current(c1)
       case Some(ch) =>
         if ch == ':' then
           match IndexOf(Rewound(c1, 1))
           case Ok((c2, right)) => Ok((c2, BitsRange(high, if right.Some? then Indexed(right.value) else Lowest)))
           case _ => Panic
         else
           Ok((c1, BitsRange(high, high)))
       case None => Ok((c1, BitsRange(high, Lowest))))
    case _ => Panic
  }

  /**
   * `syntax_accessor`: "[range]" at the current byte or no accessor, which
   * leaves the iterator where it was; an accessor is always a range.
   */
  function Accessor(c: Cursor): (r: Result<(Cursor, Option<OperandSource>)>)
    requires Valid(c)
    ensures r.Ok? ==> Advanced(c, r.value.0)
    ensures r.Ok? ==> (r.value.1.None? <==> Current(c) != Some('['))
    ensures r.Ok? && r.value.1.None? ==> r.value.0 == c
    ensures r.Ok? && r.value.1.Some? ==> r.value.1.value.RangeSource?
  {
    match Current(c)
    case Some(ch) =>
      if ch == '[' then
        match SyntaxRange(Rewound(c, 1))
        case Ok((c1, range)) =>
          (match Current(c1)
           case Some(ch1) =>
             if ch1 == ']' then Ok((Rewound(c1, 1), Some(RangeSource(range))))
             else Err("Accessor [] is not closed with ']'")
           case None => Err("Command is not complete"))
        case _ => Panic
      else
        Ok((c, None))
    case None => Ok((c, None))
  }

  /** Without ':' the range is the one index given, or the highest bit for none. */
  lemma RangeWithoutColon(c: Cursor)
    requires Valid(c)
    ensures match IndexOf(c)
      case Ok((c1, left)) =>
        var high := if left.Some? then Indexed(left.value) else Highest;
        Current(c1).Some? && Current(c1) != Some(':') ==> SyntaxRange(c) == Ok((c1, BitsRange(high, high)))
      case _ => SyntaxRange(c) == Panic
  {
  }

  /** "[]" is the highest bit alone and "[7]" bit 7 alone; "[:]" is the whole register. */
  lemma AccessorNoColon()
    ensures Accessor(Cursor("[]", 0)) == Ok((Cursor("[]", 2), Some(RangeSource(BitsRange(Highest, Highest)))))
    ensures Accessor(Cursor("[7]", 0)) == Ok((Cursor("[7]", 3), Some(RangeSource(BitsRange(Indexed(7), Indexed(7))))))
    ensures Accessor(Cursor("[:]", 0)) == Ok((Cursor("[:]", 3), Some(RangeSource(BitsRange(Highest, Lowest)))))
  {
    assert SyntaxRange(Cursor("[]", 1)) == Ok((Cursor("[]", 1), BitsRange(Highest, Highest)));
    var s := "[7]";
    IndexStep(s, 1, 0);
    assert IndexOf(Cursor(s, 1)) == Ok((Cursor(s, 2), Some(7)));
    var t := "[:]";
    assert IndexOf(Cursor(t, 1)) == Ok((Cursor(t, 1), None));
    assert IndexOf(Cursor(t, 2)) == Ok((Cursor(t, 2), None));
    assert SyntaxRange(Cursor(t, 1)) == Ok((Cursor(t, 2), BitsRange(Highest, Lowest)));
  }

  /** "[3:5]" reads both indices as given; "[3:]" and "[:5]" default the missing end. */
  lemma AccessorWithColon()
    ensures Accessor(Cursor("[3:5]", 0)) == Ok((Cursor("[3:5]", 5), Some(RangeSource(BitsRange(Indexed(3), Indexed(5))))))
    ensures Accessor(Cursor("[3:]", 0)) == Ok((Cursor("[3:]", 4), Some(RangeSource(BitsRange(Indexed(3), Lowest)))))
    ensures Accessor(Cursor("[:5]", 0)) == Ok((Cursor("[:5]", 4), Some(RangeSource(BitsRange(Highest, Indexed(5))))))
  {
    BothEnds();
    NoLowEnd();
    NoHighEnd();
  }

  lemma BothEnds()
    ensures Accessor(Cursor("[3:5]", 0)) == Ok((Cursor("[3:5]", 5), Some(RangeSource(BitsRange(Indexed(3), Indexed(5))))))
  {
    SingleDigitRange("[3:5]", 1);
    Bracketed("[3:5]", 4, BitsRange(Indexed(3), Indexed(5)));
  }

  lemma NoLowEnd()
    ensures Accessor(Cursor("[3:]", 0)) == Ok((Cursor("[3:]", 4), Some(RangeSource(BitsRange(Indexed(3), Lowest)))))
  {
    var t := "[3:]";
    SingleDigit(t, 1);
    assert IndexOf(Cursor(t, 3)) == Ok((Cursor(t, 3), None));
    assert SyntaxRange(Cursor(t, 1)) == Ok((Cursor(t, 3), BitsRange(Indexed(3), Lowest)));
    Bracketed(t, 3, BitsRange(Indexed(3), Lowest));
  }

  lemma NoHighEnd()
    ensures Accessor(Cursor("[:5]", 0)) == Ok((Cursor("[:5]", 4), Some(RangeSource(BitsRange(Highest, Indexed(5))))))
  {
    var u := "[:5]";
    ColonDigitRange(u, 1);
    Bracketed(u, 3, BitsRange(Highest, Indexed(5)));
  }

  /** ":d" of a single digit, followed by anything but a digit, is the range [Highest:d]. */
  lemma ColonDigitRange(s: string, i: nat)
    requires i + 2 < |s| && s[i] == ':' && IsDecimal(s[i + 1]) && !IsDecimal(s[i + 2])
    ensures SyntaxRange(Cursor(s, i)) == Ok((Cursor(s, i + 2), BitsRange(Highest, Indexed(DigitOf(s[i + 1])))))
  {
    assert IndexOf(Cursor(s, i)) == Ok((Cursor(s, i), None));
    SingleDigit(s, i + 1);
  }

  /** A '[' at the start and a ']' where the range read from behind it stops make an accessor. */
  lemma Bracketed(s: string, e: nat, range: BitsRange)
    requires 0 < e < |s| && s[0] == '[' && s[e] == ']'
    requires SyntaxRange(Cursor(s, 1)) == Ok((Cursor(s, e), range))
    ensures Accessor(Cursor(s, 0)) == Ok((Cursor(s, e + 1), Some(RangeSource(range))))
  {
    assert Current(Cursor(s, 0)) == Some('[') && Current(Cursor(s, e)) == Some(']');
  }

  /** An accessor must be closed with ']' and must not end the command. */
  lemma AccessorErrors()
    ensures Accessor(Cursor("[1)", 0)) == Err("Accessor [] is not closed with ']'")
    ensures Accessor(Cursor("[1", 0)) == Err("Command is not complete")
  {
    IndexStep("[1)", 1, 0);
    assert IndexOf(Cursor("[1)", 1)) == Ok((Cursor("[1)", 2), Some(1)));
    assert SyntaxRange(Cursor("[1)", 1)) == Ok((Cursor("[1)", 2), BitsRange(Indexed(1), Indexed(1))));
    IndexStep("[1", 1, 0);
    assert IndexOf(Cursor("[1", 1)) == Ok((Cursor("[1", 2), Some(1)));
    assert SyntaxRange(Cursor("[1", 1)) == Ok((Cursor("[1", 2), BitsRange(Indexed(1), Lowest)));
  }

  // ---------------------------------------------------------------------
  // syntax_operator
  // ---------------------------------------------------------------------

  /**
   * `syntax_operator`: "<<" first, then '=' or '+'. No operator leaves the
   * iterator where it was; an operator is passed over.
   */
  function OperatorAt(c: Cursor): (r: (Cursor, Option<Operator>))
    requires Valid(c)
    ensures Advanced(c, r.0)
    ensures r.1.None? <==> !MatchesAt(c, "<<") && Current(c) != Some('=') && Current(c) != Some('+')
    ensures r.1.None? ==> r.0 == c
    ensures r.1.Some? ==> r.0.offset == c.offset + (if r.1.value == UnsignedShiftLeft then 2 else 1)
  {
    if MatchesAt(c, "<<") then
      (Rewound(c, 2), Some(UnsignedShiftLeft))
    else
      match Current(c)
      case Some(ch) =>
        if ch == '=' then (Rewound(c, 1), Some(Assign))
        else if ch == '+' then (Rewound(c, 1), Some(Sum))
        else (c, None)
      case None => (c, None)
  }

  /** A single '<' is no operator; "<<", "=" and "+" are the three there are. */
  lemma OperatorExamples()
    ensures OperatorAt(Cursor("<<1", 0)) == (Cursor("<<1", 2), Some(UnsignedShiftLeft))
    ensures OperatorAt(Cursor("=1", 0)) == (Cursor("=1", 1), Some(Assign))
    ensures OperatorAt(Cursor("+1", 0)) == (Cursor("+1", 1), Some(Sum))
    ensures OperatorAt(Cursor("<1", 0)) == (Cursor("<1", 0), None)
  {
    assert "<<1"[0..2] == "<<";
    assert "<1"[0..2] != "<<" by { assert "<1"[0..2][1] == '1'; }
  }

  // ---------------------------------------------------------------------
  // Number literals
  // ---------------------------------------------------------------------

  /** The bytes `syntax_number` collects, whatever the radix. */
  predicate IsLiteralChar(c: char)
  {
    IsDecimal(c) || 'a' <= c <= 'f' || 'A' <= c <= 'F'
  }

  /** The `syntax_number` loop: literal bytes are appended, with `next` between them. */
  function ScanLiteral(c: Cursor, literal: string): (r: (Cursor, string))
    requires Valid(c)
    ensures Advanced(c, r.0)
    ensures Current(r.0).None? || !IsLiteralChar(Current(r.0).value)
    decreases |c.source| - c.offset
  {
    match Current(c)
    case Some(ch) =>
      if IsLiteralChar(ch) then ScanLiteral(AfterNext(c), literal + [ch]) else (c, literal)
    case None => (c, literal)
  }

  /** One turn of the `syntax_number` loop at a literal byte. */
  lemma LiteralStep(s: string, i: nat, literal: string)
    requires i < |s| && IsLiteralChar(s[i])
    ensures ScanLiteral(Cursor(s, i), literal) == ScanLiteral(Cursor(s, i + 1), literal + [s[i]])
  {
    assert Current(Cursor(s, i)) == Some(s[i]);
  }

  /** The loop appends exactly the bytes it passes over, all of them literal bytes. */
  lemma {:induction false} ScanLiteralReads(c: Cursor, literal: string)
    requires Valid(c)
    ensures var (d, l) := ScanLiteral(c, literal);
      var read := c.source[c.offset..d.offset];
      l == literal + read && forall k :: 0 <= k < |read| ==> IsLiteralChar(read[k])
    decreases |c.source| - c.offset
  {
    var s := c.source;
    var (d, l) := ScanLiteral(c, literal);
    if c.offset < |s| && IsLiteralChar(s[c.offset]) {
      var ch := s[c.offset];
      assert Current(c) == Some(ch);
      assert ScanLiteral(c, literal) == ScanLiteral(AfterNext(c), literal + [ch]);
      ScanLiteralReads(AfterNext(c), literal + [ch]);
      SliceCons(s, c.offset, d.offset);
      Syntax.AppendMoved(literal, ch, s[c.offset + 1..d.offset]);
    } else {
      assert s[c.offset..d.offset] == [];
    }
  }

  /** Literal bytes are digits in the sense of `Number::from`. */
  lemma LiteralCharsAreDigits(s: string)
    requires forall k :: 0 <= k < |s| ==> IsLiteralChar(s[k])
    ensures forall k :: 0 <= k < |s| ==> IsDigitChar(s[k])
  {
  }

  /**
   * `syntax_number`: the literal bytes from here, read by `Number::from`,
   * which panics on a digit at or above the radix.
   */
  function NumberLiteral(c: Cursor, radix: nat): (r: Result<(Cursor, OperandSource)>)
    requires Valid(c)
    ensures r.Ok? || r.Panic?
    ensures r.Ok? ==> Advanced(c, r.value.0) && r.value.1.DirectSource? && r.value.1.radix == radix
    ensures r.Ok? ==> Parsable(r.value.1.literal, r.value.1.radix)
  {
    var (d, literal) := ScanLiteral(c, "");
    if Parsable(literal, radix) then Ok((d, DirectSource(literal, radix))) else Panic
  }

  /**
   * What `syntax_number` yields: the run of literal bytes at the iterator
   * with the radix, or a panic exactly when one of them is no digit
   * below the radix.
   */
  lemma NumberLiteralReads(c: Cursor, radix: nat)
    requires Valid(c) && radix <= U32_MAX
    ensures var (d, l) := ScanLiteral(c, "");
      l == c.source[c.offset..d.offset]
      && (NumberLiteral(c, radix).Panic? <==> exists k :: 0 <= k < |l| && IsDigitChar(l[k]) && DigitOf(l[k]) >= radix)
      && (NumberLiteral(c, radix).Ok? ==> NumberLiteral(c, radix) == Ok((d, DirectSource(l, radix))))
  {
    var (d, l) := ScanLiteral(c, "");
    LiteralRead(c);
    LiteralVerdict(c, radix, d, l);
  }

  /** From the start, the literal read is the source up to where the scan stops, all digit characters. */
  lemma LiteralRead(c: Cursor)
    requires Valid(c)
    ensures var (d, l) := ScanLiteral(c, "");
      l == c.source[c.offset..d.offset] && forall k :: 0 <= k < |l| ==> IsDigitChar(l[k])
  {
    var (d, l) := ScanLiteral(c, "");
    ScanLiteralReads(c, "");
    assert "" + c.source[c.offset..d.offset] == c.source[c.offset..d.offset];
    LiteralCharsAreDigits(l);
  }

  /** Of the digits it scanned, `syntax_number` panics exactly at one not below the radix. */
  lemma LiteralVerdict(c: Cursor, radix: nat, d: Cursor, l: string)
    requires Valid(c) && radix <= U32_MAX && ScanLiteral(c, "") == (d, l)
    requires forall k :: 0 <= k < |l| ==> IsDigitChar(l[k])
    ensures NumberLiteral(c, radix).Panic? <==> exists k :: 0 <= k < |l| && IsDigitChar(l[k]) && DigitOf(l[k]) >= radix
    ensures NumberLiteral(c, radix).Ok? ==> NumberLiteral(c, radix) == Ok((d, DirectSource(l, radix)))
  {
  }

  /** `syntax_number` on a parsing iterator. */
  method SyntaxNumber(it: ParsingIterator, radix: nat) returns (r: Result<OperandSource>)
    requires Valid(it.State())
    modifies it
    ensures match NumberLiteral(old(it.State()), radix)
      case Ok(p) => r == Ok(p.1) && it.State() == p.0
      case _ => r == Panic
  {
    ghost var start := it.State();
    var numberLiteral := "";
    while Current(it.State()).Some? && IsLiteralChar(Current(it.State()).value)
      invariant Valid(it.State()) && it.source == start.source
      invariant ScanLiteral(it.State(), numberLiteral) == ScanLiteral(start, "")
      decreases |it.source| - it.offset
    {
      numberLiteral := numberLiteral + [it.source[it.offset]];
      var _ := it.Next();
    }
    if Parsable(numberLiteral, radix) {
      r := Ok(DirectSource(numberLiteral, radix));
    } else {
      r := Panic;
    }
  }

  /** A decimal literal with a hexadecimal letter in it panics in `Number::from`. */
  lemma DecimalWithLetterPanics()
    ensures NumberLiteral(Cursor("1f", 0), 10) == Panic
  {
    var s := "1f";
    LiteralStep(s, 0, "");
    assert "" + [s[0]] == "1";
    LiteralStep(s, 1, "1");
    assert "1" + [s[1]] == "1f";
    assert DigitOf("1f"[1]) == 15;
  }

  // ---------------------------------------------------------------------
  // Right operands
  // ---------------------------------------------------------------------

  /** The message of a closed arbitrary radix above 37. */
  function RadixTooBigMessage(radix: nat): string
  {
    "Arbitrary radix is too big - " + Numbers.Decimal(radix)
    + ", must be small enough to write numbers in it with '0'..'9' + 'a'..'z'"
  }

  /**
   * `syntax_radix_number`, after a leading '0': a radix letter, an
   * arbitrary radix "(N)" of at most 37, or the end of the command, which
   * is the literal 0.
   */
  function RadixNumber(c: Cursor): (r: Result<(Cursor, OperandSource)>)
    requires Valid(c)
    ensures r.Ok? ==> Advanced(c, r.value.0) && r.value.1.DirectSource?
    ensures r.Ok? ==> Parsable(r.value.1.literal, r.value.1.radix)
  {
    match Current(c)
    case Some(ch) =>
      if ch == 'b' || ch == 'B' then NumberLiteral(Rewound(c, 1), 2)
      else if ch == 'o' || ch == 'O' then NumberLiteral(Rewound(c, 1), 8)
      else if ch == 'd' || ch == 'D' then NumberLiteral(Rewound(c, 1), 10)
      else if ch == 'h' || ch == 'H' || ch == 'x' || ch == 'X' then NumberLiteral(Rewound(c, 1), 16)
      else if ch == '(' then
        match IndexOf(Rewound(c, 1))
        case Ok((c1, Some(radix))) =>
          (match Current(c1)
           case Some(ch1) =>
             if ch1 != ')' then Err("Arbitrary radix must be closed with ')'")
             else if radix > 37 then Err(RadixTooBigMessage(radix))
             else NumberLiteral(Rewound(c1, 1), radix)
           case None => Err("Arbitrary radix must be closed with ')'"))
        case Ok((_, None)) => Err("Arbitrary radix must not be empty")
        case _ => Panic
      else
        Err("bad radix letter '" + [ch] + "'")
    case None =>
      assert DigitOf("0"[0]) == 0;
      Ok((c, DirectSource("0", 10)))
  }

  /**
   * `syntax_rvalue`: a range, a number, or a number with a radix. A
   * right operand is never a named part, and a literal always parses.
   */
  function Rvalue(c: Cursor): (r: Result<(Cursor, OperandSource)>)
    requires Valid(c)
    ensures r.Ok? ==> Advanced(c, r.value.0) && !r.value.1.NamedAccessSource?
    ensures r.Ok? && r.value.1.DirectSource? ==> Parsable(r.value.1.literal, r.value.1.radix)
    ensures Current(c).None? <==> r == Err("no second operand")
  {
    match Current(c)
    case Some(ch) =>
      if ch == '[' then
        match Accessor(c)
        case Ok((d, Some(ops))) => Ok((d, ops))
        case Ok((_, None)) => Err("range access in right value must be correct")
        case Err(m) => Err(m)
        case Panic => Panic
      else if '1' <= ch <= '9' then NumberLiteral(c, 10)
      else if ch == '0' then RadixNumber(Rewound(c, 1))
      else Err("bad number syntax")
    case None => Err("no second operand")
  }

  /** A closed arbitrary radix above 37 is refused. */
  lemma RadixTooBig()
    ensures RadixNumber(Cursor("(38)1", 0)) == Err(RadixTooBigMessage(38))
  {
    ThirtyEight();
    RadixRefused("", "38", "1");
    OpenThirtyEight();
  }

  lemma ThirtyEight()
    ensures |"38"| >= 1 && AllDecimal("38") && DigitsValue("38", 10) == 38
  {
    assert "38"[..1] == "3" && "3"[..0] == "";
  }

  lemma OpenThirtyEight()
    ensures "" + "(" + "38" + ")" + "1" == "(38)1"
  {
  }

  /**
   * Any closed arbitrary radix above 37 that fits in a usize is refused with
   * its own number in the message, whatever precedes or follows it.
   */
  lemma RadixRefused(p: string, d: string, rest: string)
    requires |d| >= 1 && AllDecimal(d) && 37 < DigitsValue(d, 10) <= USIZE_MAX
    ensures var s := p + "(" + d + ")" + rest;
      RadixNumber(Cursor(s, |p|)) == Err(RadixTooBigMessage(DigitsValue(d, 10)))
  {
    var s := p + "(" + d + ")" + rest;
    EmbeddedAt(p + "(", d, ")" + rest);
    assert s == (p + "(") + d + (")" + rest);
    assert s[|p|] == '(' && s[|p| + 1 + |d|] == ')';
    RadixAt(s, |p| + 1, d);
  }

  /** The radix d, opened just before position a of s and closed right after it, is refused. */
  lemma RadixAt(s: string, a: nat, d: string)
    requires 1 <= a && a + |d| < |s| && s[a - 1] == '(' && DigitsAt(s, a, d) && s[a + |d|] == ')'
    requires |d| >= 1 && AllDecimal(d) && 37 < DigitsValue(d, 10) <= USIZE_MAX
    ensures RadixNumber(Cursor(s, a - 1)) == Err(RadixTooBigMessage(DigitsValue(d, 10)))
  {
    ScanDigits(s, a, d);
    RadixClosed(s, a, a + |d|, DigitsValue(d, 10));
  }

  /** The index loop reads the digits d at position a of s whole, when no digit follows them. */
  lemma ScanDigits(s: string, a: nat, d: string)
    requires DigitsAt(s, a, d)
    requires AllDecimal(d) && DigitsValue(d, 10) <= USIZE_MAX
    requires a + |d| < |s| ==> !IsDecimal(s[a + |d|])
    ensures ScanIndex(Cursor(s, a), 0) == Ok((Cursor(s, a + |d|), DigitsValue(d, 10)))
    ensures |d| >= 1 ==> IsDecimal(s[a])
  {
    assert d[..0] == [];
    assert |d| >= 1 ==> s[a] == d[0];
    ScanDigitRun(s, a, d, 0);
  }

  /** Digits from position a up to a ')' at e, opened by a '(' and read as v above 37, are refused. */
  lemma RadixClosed(s: string, a: nat, e: nat, v: nat)
    requires 1 <= a < e < |s| && s[a - 1] == '(' && IsDecimal(s[a]) && s[e] == ')' && v > 37
    requires ScanIndex(Cursor(s, a), 0) == Ok((Cursor(s, e), v))
    ensures RadixNumber(Cursor(s, a - 1)) == Err(RadixTooBigMessage(v))
  {
    var c := Cursor(s, a - 1);
    assert Current(c) == Some('(') && Rewound(c, 1) == Cursor(s, a);
    assert IndexOf(Cursor(s, a)) == Ok((Cursor(s, e), Some(v)));
    RadixArm(c, Cursor(s, e), v);
  }

  /** The arm of a closed arbitrary radix above 37. */
  lemma RadixArm(c: Cursor, c1: Cursor, radix: nat)
    requires Valid(c) && Current(c) == Some('(')
    requires IndexOf(Rewound(c, 1)) == Ok((c1, Some(radix)))
    requires Current(c1) == Some(')') && radix > 37
    ensures RadixNumber(c) == Err(RadixTooBigMessage(radix))
  {
  }

  /** The characters of d, in order, from position a of s on. */
  predicate DigitsAt(s: string, a: nat, d: string)
  {
    a + |d| <= |s| && forall k :: 0 <= k < |d| ==> s[a + k] == d[k]
  }

  /** y sits in x + y + z right after x. */
  lemma EmbeddedAt(x: string, y: string, z: string)
    ensures DigitsAt(x + y + z, |x|, y)
  {
    forall k | 0 <= k < |y|
      ensures (x + y + z)[|x| + k] == y[k]
    {
    }
  }

  /** The `syntax_index` loop over the digits d at offset a of s, from the j-th on, stops after them with their value. */
  lemma {:induction false} ScanDigitRun(s: string, a: nat, d: string, j: nat)
    requires DigitsAt(s, a, d) && j <= |d|
    requires AllDecimal(d) && DigitsValue(d, 10) <= USIZE_MAX
    requires a + |d| < |s| ==> !IsDecimal(s[a + |d|])
    ensures ScanIndex(Cursor(s, a + j), DigitsValue(d[..j], 10)) == Ok((Cursor(s, a + |d|), DigitsValue(d, 10)))
    decreases |d| - j
  {
    if j < |d| {
      DigitsStep(d, j, 10);
      PrefixValueBounded(d, j + 1, 10);
      assert s[a + j] == d[j];
      IndexStep(s, a + j, DigitsValue(d[..j], 10));
      ScanDigitRun(s, a, d, j + 1);
    } else {
      assert d[..j] == d;
    }
  }

  /** An arbitrary radix must be closed with ')'. */
  lemma RadixUnclosed()
    ensures RadixNumber(Cursor("(1", 0)) == Err("Arbitrary radix must be closed with ')'")
    ensures RadixNumber(Cursor("(1]", 0)) == Err("Arbitrary radix must be closed with ')'")
  {
    IndexStep("(1", 1, 0);
    assert IndexOf(Cursor("(1", 1)) == Ok((Cursor("(1", 2), Some(1)));
    IndexStep("(1]", 1, 0);
    assert IndexOf(Cursor("(1]", 1)) == Ok((Cursor("(1]", 2), Some(1)));
  }

  /** An arbitrary radix must not be empty, and a letter must name a radix. */
  lemma RadixMissing()
    ensures RadixNumber(Cursor("()", 0)) == Err("Arbitrary radix must not be empty")
    ensures RadixNumber(Cursor("q", 0)) == Err("bad radix letter 'q'")
  {
    assert IndexOf(Cursor("()", 1)) == Ok((Cursor("()", 1), None));
  }

  /** A '0' that ends the command is the literal 0; "0x1f" is the hexadecimal literal "1f". */
  lemma RadixExamples()
    ensures RadixNumber(Cursor("0", 1)) == Ok((Cursor("0", 1), DirectSource("0", 10)))
    ensures RadixNumber(Cursor("0x1f", 1)) == Ok((Cursor("0x1f", 4), DirectSource("1f", 16)))
  {
    var s := "0x1f";
    LiteralStep(s, 2, "");
    assert "" + [s[2]] == "1";
    LiteralStep(s, 3, "1");
    assert "1" + [s[3]] == "1f";
    assert DigitOf("1f"[0]) == 1 && DigitOf("1f"[1]) == 15;
  }

  // ---------------------------------------------------------------------
  // parse
  // ---------------------------------------------------------------------

  /** The range a command without an accessor works on: the whole register. */
  const WholeRegister := RangeSource(BitsRange(Highest, Lowest))

  /**
   * The rules of `parse` from the iterator on: an optional accessor (the
   * whole register by default), an optional operator (assignment by
   * default), a right operand, and nothing after it.
   */
  function CommandAt(c0: Cursor): (r: Result<Command>)
    requires Valid(c0)
    ensures r.Ok? ==> r.value.left.RangeSource? && !r.value.right.NamedAccessSource?
    ensures r.Ok? && r.value.right.DirectSource? ==> Parsable(r.value.right.literal, r.value.right.radix)
  {
    match Accessor(c0)
    case Ok((c1, access)) =>
      var left := if access.Some? then access.value else WholeRegister;
      var (c2, op) := OperatorAt(c1);
      var handler := if op.Some? then op.value else Assign;
      (match Rvalue(c2)
       case Ok((c3, right)) =>
         if Current(c3).Some? then Err("Could not parse all symbols in command")
         else Ok(Command(left, handler, right))
       case Err(m) => Err(m)
       case Panic => Panic)
    case Err(m) => Err(m)
    case Panic => Panic
  }

  /**
   * `parse`: the rules on the command without its whitespace. A command
   * that is not ASCII makes the iterator's `expect` panic.
   */
  function Parse(cmd: string): (r: Result<Command>)
    ensures r.Ok? ==> r.value.left.RangeSource? && !r.value.right.NamedAccessSource?
    ensures r.Ok? && r.value.right.DirectSource? ==> Parsable(r.value.right.literal, r.value.right.radix)
    ensures !IsAscii(Syntax.Visible(cmd)) ==> r == Panic
  {
    match Start(Syntax.Visible(cmd))
    case Ok(c0) => CommandAt(c0)
    case _ => Panic
  }

  /** What is left of a command once its whitespace is removed has none. */
  lemma {:induction false} VisibleHasNoWhitespace(s: string)
    ensures forall k :: 0 <= k < |Syntax.Visible(s)| ==> !Syntax.IsWhitespace(Syntax.Visible(s)[k])
    decreases |s|
  {
    if |s| > 0 {
      VisibleHasNoWhitespace(s[1..]);
      var head: string := if Syntax.IsWhitespace(s[0]) then [] else [s[0]];
      assert Syntax.Visible(s) == head + Syntax.Visible(s[1..]);
      forall k | 0 <= k < |Syntax.Visible(s)|
        ensures !Syntax.IsWhitespace(Syntax.Visible(s)[k])
      {
        if k >= |head| {
          assert Syntax.Visible(s)[k] == Syntax.Visible(s[1..])[k - |head|];
        }
      }
    }
  }

  /** Removing whitespace from a command without any changes nothing. */
  lemma {:induction false} VisibleOfClean(s: string)
    requires forall k :: 0 <= k < |s| ==> !Syntax.IsWhitespace(s[k])
    ensures Syntax.Visible(s) == s
    decreases |s|
  {
    if |s| > 0 {
      VisibleOfClean(s[1..]);
      assert [s[0]] + s[1..] == s;
    }
  }

  /** Whitespace anywhere in a command means nothing: the command without it parses the same. */
  lemma ParseIgnoresWhitespace(cmd: string)
    ensures Parse(cmd) == Parse(Syntax.Visible(cmd))
  {
    VisibleHasNoWhitespace(cmd);
    VisibleOfClean(Syntax.Visible(cmd));
  }

  /** A command without whitespace, as `parse` works on after removing it. */
  predicate Clean(s: string)
  {
    IsAscii(s) && forall k :: 0 <= k < |s| ==> !Syntax.IsWhitespace(s[k])
  }

  /** An ASCII command without whitespace is parsed by the rules from its first byte. */
  lemma ParseClean(s: string)
    requires Clean(s)
    ensures Parse(s) == CommandAt(Cursor(s, 0))
  {
    VisibleOfClean(s);
  }

  /** How the rules chain once the accessor and the operator are read. */
  lemma CommandChain(c0: Cursor, c1: Cursor, access: Option<OperandSource>, c2: Cursor, op: Option<Operator>)
    requires Valid(c0)
    requires Accessor(c0) == Ok((c1, access))
    requires OperatorAt(c1) == (c2, op)
    ensures CommandAt(c0) == match Rvalue(c2)
      case Ok((c3, right)) =>
        if Current(c3).Some? then Err("Could not parse all symbols in command")
        else Ok(Command(if access.Some? then access.value else WholeRegister, if op.Some? then op.value else Assign, right))
      case Err(m) => Err(m)
      case Panic => Panic
  {
  }

  /** A command needs a right operand: "" and "[]" have none (src/syntax/mod.rs:165). */
  lemma NoSecondOperand()
    ensures Parse("") == Err("no second operand")
    ensures CommandAt(Cursor("[]", 0)) == Err("no second operand")
  {
    EmptyCommand();
    BareAccessor();
  }

  lemma EmptyCommand()
    ensures Parse("") == Err("no second operand")
  {
    assert Syntax.Visible("") == "";
  }

  lemma BareAccessor()
    ensures CommandAt(Cursor("[]", 0)) == Err("no second operand")
  {
    AccessorNoColon();
    CommandChain(Cursor("[]", 0), Cursor("[]", 2), Some(RangeSource(BitsRange(Highest, Highest))), Cursor("[]", 2), None);
  }

  /** Without an accessor and an operator, a number is assigned to the whole register. */
  lemma ParseDefaults()
    ensures CommandAt(Cursor("1", 0)) == Ok(Command(WholeRegister, Assign, DirectSource("1", 10)))
  {
    var s := "1";
    CommandChain(Cursor(s, 0), Cursor(s, 0), None, Cursor(s, 0), None);
    LiteralStep(s, 0, "");
    assert "" + [s[0]] == "1";
    assert Rvalue(Cursor(s, 0)) == Ok((Cursor(s, 1), DirectSource("1", 10)));
  }

  /** Bytes after the right operand are an error. */
  lemma ParseLeftover()
    ensures CommandAt(Cursor("1]", 0)) == Err("Could not parse all symbols in command")
  {
    var s := "1]";
    assert !MatchesAt(Cursor(s, 0), "<<") by { assert s[0..2][0] == '1'; }
    CommandChain(Cursor(s, 0), Cursor(s, 0), None, Cursor(s, 0), None);
    LiteralStep(s, 0, "");
    assert "" + [s[0]] == "1";
    assert Rvalue(Cursor(s, 0)) == Ok((Cursor(s, 1), DirectSource("1", 10)));
  }

  /** The accessor of the example below. */
  lemma ExampleAccessor()
    ensures Accessor(Cursor("[7:0]=0x1f", 0))
         == Ok((Cursor("[7:0]=0x1f", 5), Some(RangeSource(BitsRange(Indexed(7), Indexed(0))))))
  {
    ExampleRange();
    Bracketed("[7:0]=0x1f", 4, BitsRange(Indexed(7), Indexed(0)));
  }

  lemma ExampleRange()
    ensures SyntaxRange(Cursor("[7:0]=0x1f", 1)) == Ok((Cursor("[7:0]=0x1f", 4), BitsRange(Indexed(7), Indexed(0))))
  {
    SingleDigitRange("[7:0]=0x1f", 1);
  }

  /** "d:e" of two single digits, followed by anything but a digit, is the range [d:e]. */
  lemma SingleDigitRange(s: string, i: nat)
    requires i + 3 < |s| && IsDecimal(s[i]) && s[i + 1] == ':' && IsDecimal(s[i + 2]) && !IsDecimal(s[i + 3])
    ensures SyntaxRange(Cursor(s, i)) == Ok((Cursor(s, i + 3), BitsRange(Indexed(DigitOf(s[i])), Indexed(DigitOf(s[i + 2])))))
  {
    SingleDigit(s, i);
    SingleDigit(s, i + 2);
    assert Current(Cursor(s, i + 1)) == Some(':') && Rewound(Cursor(s, i + 1), 1) == Cursor(s, i + 2);
  }

  /** A single digit followed by anything but a digit is read as its value. */
  lemma SingleDigit(s: string, i: nat)
    requires i + 1 < |s| && IsDecimal(s[i]) && !IsDecimal(s[i + 1])
    ensures IndexOf(Cursor(s, i)) == Ok((Cursor(s, i + 1), Some(DigitOf(s[i]))))
  {
    IndexStep(s, i, 0);
    assert Current(Cursor(s, i + 1)) == Some(s[i + 1]);
  }

  /** The operator and the right operand of the example below. */
  lemma ExampleRvalue()
    ensures OperatorAt(Cursor("[7:0]=0x1f", 5)) == (Cursor("[7:0]=0x1f", 6), Some(Assign))
    ensures Rvalue(Cursor("[7:0]=0x1f", 6)) == Ok((Cursor("[7:0]=0x1f", 10), DirectSource("1f", 16)))
  {
    var s := "[7:0]=0x1f";
    assert !MatchesAt(Cursor(s, 5), "<<") by { assert s[5..7][0] == '='; }
    LiteralStep(s, 8, "");
    assert "" + [s[8]] == "1";
    LiteralStep(s, 9, "1");
    assert "1" + [s[9]] == "1f";
    assert DigitOf("1f"[0]) == 1 && DigitOf("1f"[1]) == 15;
    assert RadixNumber(Cursor(s, 7)) == Ok((Cursor(s, 10), DirectSource("1f", 16)));
  }

  /** A whole command: "[7:0]=0x1f" assigns the hexadecimal literal to bits 7 to 0. */
  lemma ParseExample()
    ensures CommandAt(Cursor("[7:0]=0x1f", 0))
         == Ok(Command(RangeSource(BitsRange(Indexed(7), Indexed(0))), Assign, DirectSource("1f", 16)))
  {
    var s := "[7:0]=0x1f";
    ExampleAccessor();
    ExampleRvalue();
    CommandChain(Cursor(s, 0), Cursor(s, 5), Some(RangeSource(BitsRange(Indexed(7), Indexed(0)))), Cursor(s, 6), Some(Assign));
  }
}
