# binc, the bit calculator, in Dafny

binc is an interactive calculator for bit patterns. A command such as
`[7:0] = 0x1f`, `<<~ 3` or `[15:8] <> [7:0]` names a range of bits of one
register, an operator and an optional second operand. binc parses the
command, applies the handler for the operator to the register and keeps an
undo/redo history of the register's states.

The model follows the repository's core, file by file.

- `numbers.dfy` (module `Numbers`) holds the value model of the u128 register
  of `src/number.rs`: a `NumberState` of buffer, effective bits, type,
  signedness and carry. It has the masks, bit-index resolution, `get_bits` and
  `set_bits`, the closure-based ranged arithmetic, negation, sign extension,
  `convert`, counting, and the signed shift right. Each comes with the lemmas
  that say what it computes.
- `literals.dfy` (module `Literals`) holds `from_str`, `from_char` and
  `to_string` as functions, with round trips between parsing and printing.
- `register.dfy` (module `Register`) is the `Number` class itself. Its fields
  are updated in place, and each method is proved to take the register from
  `old(State())` to the state the value model describes. The digit loop of
  `from_str` is a `while` loop.
- `bits.dfy` (module `Bits`) holds `&`, `|`, `^`, `!`, `<<`, `>>` and bit
  reversal on unbounded naturals that stand for u128 values, and the field
  helpers `Field`/`WithField`.
- `syntax.dfy` (module `Syntax`) holds the command grammar of `src/syntax.rs`.
  It has a `ParsingIterator` class whose methods move an offset over the
  command, the pure functions that specify it, and the recursive-descent
  grammar (`syntax_index`, `syntax_range`, `syntax_accessor`,
  `syntax_letter`, `syntax_operator`, `syntax_rvalue`,
  `syntax_radix_number`, `syntax_number`, `parse`).
- `operators.dfy` (module `Operators`) holds the handlers of
  `src/operators.rs`, both as functions from a register state and operands to
  an outcome and as methods on a `Register.Number`. `operator_laws.dfy`
  (module `OperatorLaws`) proves what each handler does to the target range.
- `history.dfy` (module `Histories`) holds the bounded undo/redo history of
  `src/history.rs`, as a class over two sequences and a value model with its
  laws.
- `legacy_numbers.dfy`, `legacy_syntax.dfy` and `legacy_operators.dfy`
  (modules `LegacyNumbers`, `LegacySyntax`, `LegacyOperators`) model the older
  snapshot. `src/number/mod.rs` keeps the register as a growable vector of
  booleans, least significant bit first, with a ripple-carry adder.
  `src/syntax/mod.rs` is a smaller ASCII-only grammar. `src/operators/mod.rs`
  has a single assignment handler.
- `results.dfy` (module `Results`) holds the `Result` and `Option` datatypes.
  `Result` carries an explicit `Panic` alternative for a Rust panic inside a
  pure parser.

u128, u32, i32 and usize values are naturals with explicit bounds. Where the
source wraps, the wrap is written out (modulo `2^128`, `2^64`, `2^32`). A
usize is 64 bits wide. Characters are Dafny `char`s and strings are
`seq<char>`.

## Model

| member | source | states |
|---|---|---|
| Numbers.MaskNthBit | src/number.rs:353-359 | `mask_nth_bit(n)` is 2^n for every n below 128, including the bit-127 special case |
| Numbers.MaskNOnesFromRight | src/number.rs:360-367 | `mask_n_ones_from_right(n)` is 2^n - 1 for n up to 128, including the 127 and 128 special cases |
| Numbers.MaskFromBitToBit | src/number.rs:368-370 | the mask holds exactly the ones from bit low to bit high, (2^(high+1-low) - 1) * 2^low, and for a high end past bit 127 the ones from bit low to bit 127, since `<<` drops the rest |
| Numbers.AndLowMask | src/number.rs:360-367 | and-ing with `mask_n_ones_from_right(n)` reduces a value modulo 2^n |
| Numbers.RangeMask | src/number.rs:360-370 | shifting `mask_n_ones_from_right(n)` up by l keeps the w of its ones that stay inside the u128, which is `mask_from_bit_to_bit(l + w - 1, l)`: all n of them when the range fits, and the ones up to bit 127 otherwise |
| Numbers.MaskPastTheWord | src/number.rs:368-370 | a mask running past bit 127 is the mask up to bit 127 |
| Numbers.HighOnes | src/number.rs:360-367 | `mask_n_ones_from_right(128 - b) << b` sets exactly the bits b to 127 |
| Numbers.NextPowerOfTwoRoundedUpValue | src/number.rs:380-391 | the rounding yields 8 for 0, 2^k rounded up to at least 8 for 1..512, and an error above 512 |
| Numbers.NextPowerOfTwoIsLeast | src/number.rs:380-391 | for 1..512 the result is the least power of two of at least 8 that holds n |
| Numbers.RoundUpToEight | src/number.rs:386 | `(2^b + 7) & -8`, with -8 as an i32 bit pattern, is 2^b raised to at least 8 |
| Numbers.NewNumber | src/number.rs:54-66 | `Number::new` succeeds exactly for sizes up to 512 and gives a zero buffer of the rounded width |
| Numbers.ResolveBitIndex | src/number.rs:260-267 | the highest index resolves below the effective bits |
| Numbers.GetBits | src/number.rs:268-274 | `get_bits` reads exactly the field of the range, shifted down to bit 0; for a range past bit 127, the bits of it inside the u128 |
| Numbers.RangeMasks | src/number.rs:268-281 | the masks `get_bits` and `set_bits` build for a range past bit 127 are those of the range cut at bit 127 |
| Numbers.RangePastTheWord | src/number.rs:268-281 | a range past bit 127 reads and writes what the range from its low end to bit 127 does, with a larger nominal width |
| Numbers.RangePastTheWordExample | src/number.rs:268-274 | on a 128-bit register [130:5] reads the 123 bits from bit 5 up, from a nominal width of 126 |
| Numbers.MaskedRead | src/number.rs:268-274 | masking with the range mask and shifting down by the low index is the field |
| Numbers.MaskedWrite | src/number.rs:275-281 | clearing the range and or-ing in the masked, shifted source writes the field and stays a u128 |
| Numbers.GetAfterSet | src/number.rs:275-281 | after `set_bits(r, v)` the range reads v modulo 2^width, every bit outside the range is unchanged, and so is every other field |
| Numbers.SetWhatWasRead | src/number.rs:268-281 | writing back what `get_bits` read leaves the register as it was |
| Numbers.Apply | src/number.rs:136-213 | each closure handed to `with_range_do_arithmetics` yields a u128 |
| Numbers.WrapsWithinRange | src/number.rs:136-185 | the wrapping closures (add, subtract, multiply, pow, shift left) agree modulo 2^width with exact arithmetic, so a range wraps like a w-bit integer |
| Numbers.ReverseWithinRange | src/number.rs:225-230 | `reverse_bits() >> (128 - w)` reverses exactly the w bits of the range |
| Numbers.RotateLeftWithinRange | src/number.rs:203-207 | the cyclic shift left closure, cut to the width, is the rotation of the range by the count |
| Numbers.RotateRightWithinRange | src/number.rs:208-213 | the cyclic shift right closure, cut to the width, is the left rotation by width - count |
| Numbers.ArithmeticInRange | src/number.rs:126-134 | a ranged operation clears the carry, keeps the register valid and zero above its effective bits, puts the closure's result (computed at the nominal width high - low + 1) modulo 2^width into the bits of the range inside the u128, and keeps every other bit |
| Numbers.ArithmeticPastTheWord | src/number.rs:126-134 | a closure that ignores the width acts on a range past bit 127 as on the range cut at bit 127 |
| Numbers.AddWrapsInRange | src/number.rs:602-624 | adding one to 0xffff00 in [23:8] wraps the 16-bit range to zero, as the source's test expects |
| Numbers.IsNegativeMeaning | src/number.rs:342-344 | a register is negative exactly when it is signed and its top effective bit is set, which is when its two's-complement value is below zero |
| Numbers.ConvertKeepsLowBits | src/number.rs:293-299 | `convert` keeps exactly the low `size` bits of the buffer, and converting twice to the same shape is converting once |
| Numbers.NegatedValue | src/number.rs:253-259 | `negate` writes the width-bit two's complement of the value it read, so the two add up to a multiple of 2^width, and makes the register signed |
| Numbers.NegateTwice | src/number.rs:253-259 | negating twice restores the value within the width |
| Numbers.NegateSigned | src/number.rs:253-259 | negation negates the two's-complement value, except for the most negative value, which stays |
| Numbers.FilledLeadingZerosValue | src/number.rs:286-292 | filling the leading zeros of a buffer with b significant bits adds 2^128 - 2^b |
| Numbers.SignExtendKeepsValue | src/number.rs:286-292 | `signed_extend_to(n)` keeps the two's-complement value of a signed register at the new width and keeps the buffer of a register that is not negative |
| Numbers.SignBitSet | src/number.rs:186-198 | testing `bits & mask_nth_bit(w - 1)` is testing the sign bit of the w-bit field |
| Numbers.ShiftedFieldValue | src/number.rs:186-198 | the source's shift-and-fill of the field is the arithmetic shift, still w bits wide |
| Numbers.ArithmeticShiftDivides | src/number.rs:186-198 | the arithmetic shift divides the two's-complement value by 2^count, rounding toward negative infinity |
| Numbers.SignedShiftRightValue | src/number.rs:186-198 | `signed_shift_right` writes the arithmetic shift of the range, at its nominal width, back into the bits of the range inside the u128 and changes nothing else |
| Numbers.SignedShiftRightDivides | src/number.rs:186-198 | after `signed_shift_right` the register is valid, the range holds its old signed value at the nominal width divided by 2^count, rounding down, and every bit outside it is unchanged |
| Numbers.CountBitsValue | src/number.rs:214-224 | `range_count_bits` counts the ones of the range for 1, its zeros (the ones of its complement) over the nominal width high - low + 1 for 0, bits past bit 127 counting as zeros, and gives `usize::MAX` for any other selector |
| Numbers.CountsAddUp | src/number.rs:214-224 | the zeros and the ones of a range add up to its nominal width high - low + 1 |
| Register.ReadDigit | src/number.rs:90-101 | one turn of the digit loop appends a digit of the radix, reports a character that is not one, and panics on overflow |
| Register.ReadDigits | src/number.rs:88-102 | the digit loop yields the value the loop specification `ParseFrom` gives |
| Register.Number.constructor | src/number.rs:45-51 | a register holding the given fields |
| Register.Number.New | src/number.rs:54-66 | `Number::new` builds the register `NewNumber` describes, or its error |
| Register.Number.FromChar | src/number.rs:67-77 | `from_char` builds the register `Literals.FromChar` describes |
| Register.Number.FromStr | src/number.rs:78-124 | `from_str` builds the register `Literals.ParsedNumber` describes, or its error |
| Register.Number.ResolveBitIndex | src/number.rs:260-267 | the method resolves an index as the value model does |
| Register.Number.GetBits | src/number.rs:268-274 | the method reads the field of the range, a value below 2^width |
| Register.Number.SetBits | src/number.rs:275-281 | the new state is `WithBitsSet` of the old one, the range holding the low bits of the source |
| Register.Number.WithRangeDoArithmetics | src/number.rs:126-134 | the new state is `AfterArithmetic` of the old state, range and closure |
| Register.Number.RangeAddBits | src/number.rs:136-139 | the range plus the u128, wrapping, as `AfterArithmetic` with `AddBy` |
| Register.Number.RangeSubtractBits | src/number.rs:140-143 | the range minus the u128, wrapping |
| Register.Number.RangeMultiplyBits | src/number.rs:144-147 | the range times the u128, wrapping |
| Register.Number.RangeDivBits | src/number.rs:148-151 | the range divided by a nonzero u128 |
| Register.Number.RangePowBits | src/number.rs:152-162 | the range to the power of the magnitude cut to a u32, wrapping |
| Register.Number.RangeModBits | src/number.rs:170-172 | the remainder of the range by a nonzero u128 |
| Register.Number.RangeXorBits | src/number.rs:173-175 | the range xor-ed with the operand |
| Register.Number.RangeAndBits | src/number.rs:176-178 | the range and-ed with the operand |
| Register.Number.RangeOrBits | src/number.rs:179-181 | the range or-ed with the operand |
| Register.Number.SignedShiftLeft | src/number.rs:182-185 | the range shifted left by a count below 128 |
| Register.Number.UnsignedShiftRight | src/number.rs:199-202 | the range shifted right, zeros coming in |
| Register.Number.UnsignedCyclicShiftLeft | src/number.rs:203-207 | the range rotated left within its width |
| Register.Number.UnsignedCyclicShiftRight | src/number.rs:208-213 | the range rotated right within its width |
| Register.Number.RangeReverseBits | src/number.rs:225-230 | the range's bits in reverse order |
| Register.Number.SignedShiftRight | src/number.rs:186-198 | the new state is `SignedShiftedRight` of the old one and is valid |
| Register.Number.Negate | src/number.rs:253-259 | the new state is `Negated` of the old one and is valid |
| Register.Number.MaxSize | src/number.rs:282-285 | `max_size` is the effective bits |
| Register.Number.SignedExtendTo | src/number.rs:286-292 | the new state is `SignExtended` of the old one, valid for a new size up to 128 |
| Register.Number.Convert | src/number.rs:293-299 | the new state is `Converted` of the old one and is valid |
| Register.Number.ToUsize | src/number.rs:300-302 | the cast keeps the low 64 bits of the buffer, and a buffer below 2^64 unchanged |
| Register.Number.ToU128 | src/number.rs:303-305 | the buffer |
| Register.Number.IsNegative | src/number.rs:342-344 | signed with the top effective bit set |
| Register.Number.Signed | src/number.rs:348-350 | the signedness flag |
| Register.Number.RangeCountBits | src/number.rs:214-224 | the count `CountBits` describes |
| Register.Number.ToString | src/number.rs:315-341 | the string `Literals.ToString` describes |
| Register.Number.PrintedValue | src/number.rs:316-320 | the number printed is the buffer, or for a negative register its complement cut below the sign bit |
| Register.Number.ToStringPrefixed | src/number.rs:312-314 | `to_string` with the prefix |
| Literals.ParseFromValue | src/number.rs:88-102 | after a prefix already read, the digit loop succeeds exactly when all characters are digits of the radix and the value fits a u128, and then yields the value of all the digits |
| Literals.ParseDigitsMeaning | src/number.rs:88-102 | from zero, the loop succeeds exactly on digit strings of the radix whose value is below 2^128, and yields that value |
| Literals.ParseDigitsError | src/number.rs:90-101 | the loop reports the first character that is not a digit of the radix |
| Literals.LiteralWidth | src/number.rs:105-110 | the rounded width of a parsed value is at most 128, holds the value and is the least of 8, 16, 32, 64, 128 that does |
| Literals.ParsedNumberValue | src/number.rs:78-124 | a successful `from_str` read digits of the radix below 2^128, and its register is the one `LiteralRegister` builds from their value and the sign |
| Literals.LiteralRegisterValue | src/number.rs:111-123 | the register is valid, of the least width holding the value, signed exactly when negative, and holds the value or its two's complement within the width |
| Literals.TwosComplementCancels | src/number.rs:111-118 | a negative literal's buffer plus its magnitude is a multiple of 2^width |
| Literals.MinusOneLiteral | src/number.rs:477-484 | "-1" is 0xFF, signed, eight bits wide |
| Literals.ZeroLiteral | src/number.rs:487-518 | "0" is zero, eight bits wide |
| Literals.OneLiteral | src/number.rs:487-518 | "1" is one, eight bits wide |
| Literals.MinusZeroLiteral | src/number.rs:477-484 | "-0" is zero, eight bits wide, still signed |
| Literals.OctalLiteral | src/number.rs:78-124 | "1111" in radix 8 is 585, sixteen bits wide |
| Literals.HexLiteral | src/number.rs:78-124 | "AF" in radix 16 is 175, eight bits wide |
| Literals.FromCharValue | src/number.rs:67-77 | `from_char` stores the code point unsigned in a register of one byte per UTF-8 byte, and the UTF-8 length is the fewest bytes whose payload holds the code point |
| Literals.FromCharExamples | src/number.rs:466-475 | 'a' is 0x61 in 8 bits, 'λ' 0x3BB in 16 and '心' 0x5FC3 in 24 |
| Literals.RadixDigitsRoundTrip | src/number.rs:321-327 | the digits printed for a value read back as that value |
| Literals.PrintedMagnitudeValue | src/number.rs:316-320 | for a negative register the printed magnitude is 2^w - buffer reduced to w - 1 bits |
| Literals.UnsignedPrintsBuffer | src/number.rs:315-341 | an unsigned register prints as the prefix and the digits of its buffer, and those digits read back as the buffer |
| Literals.ParsePrintRoundTrip | src/number.rs:78-124 | a digit string without leading zeros, read by `from_str` and printed with its prefix, gives back the prefix and the same digits |
| Literals.MostNegativePrintsMinusZero | src/number.rs:315-341 | the signed 8-bit register 0x80, the value -128, prints as "-0" |
| Literals.PrintersAgree | src/number.rs:316-320 | the printed magnitude differs from the absolute value exactly at the most negative value of the width, where it is 0 |
| Literals.IntendedPrintsSignedValue | src/number.rs:315-341 | the corrected printer writes a signed register as the sign and the digits of the absolute value of its two's-complement value |
| Literals.MostNegativeIntended | src/number.rs:315-341 | the corrected printer writes the signed 8-bit 0x80 as "-128" |
| Syntax.SkipWhitespace | src/syntax.rs:84-88 | the first offset from here that is not whitespace, everything before it being whitespace |
| Syntax.Start | src/syntax.rs:82-90 | the iterator starts past the leading whitespace of the command |
| Syntax.AfterNext | src/syntax.rs:109-117 | `next` moves strictly forward unless at the end and passes over only whitespace after the current character |
| Syntax.Rewound | src/syntax.rs:118-127 | `rewind` stays put for n = 0 or at the end, moves forward otherwise, and with whitespace skipped lands on the end or a character that is not whitespace |
| Syntax.AfterRewind | src/syntax.rs:118-127 | rewinding keeps the iterator on its command and never moves it back |
| Syntax.RewindOneIsNext | src/syntax.rs:128-130 | rewinding over one character, skipping whitespace, is `next` |
| Syntax.RewindOverWord | src/syntax.rs:128-130 | rewinding over a stretch without whitespace lands after it, past the whitespace that follows |
| Syntax.RewindPastKeyword | src/syntax.rs:128-130 | rewinding over a keyword that matches lands on what follows it |
| Syntax.RewindExample | src/syntax.rs:447-483 | the iterator of the source's test lands three characters on, on "abc" |
| Syntax.ParsingIterator.From | src/syntax.rs:82-90 | the method's loop builds the state `Start` describes |
| Syntax.ParsingIterator.MatchFromCurrent | src/syntax.rs:98-108 | the character loop answers whether the sequence matches at the current character |
| Syntax.ParsingIterator.Next | src/syntax.rs:109-117 | the new state is `AfterNext` of the old one, and the result is its current character |
| Syntax.ParsingIterator.Rewind | src/syntax.rs:118-127 | the new state is `AfterRewind` of the old one |
| Syntax.ParsingIterator.RewindN | src/syntax.rs:128-130 | rewinding with whitespace skipped |
| Syntax.ParsingIterator.RewindNIncludeWhitespaces | src/syntax.rs:131-133 | rewinding with whitespace counted |
| Syntax.ScanIndex | src/syntax.rs:139-157 | the digit loop moves forward and stops at the end or at a character that is not a decimal digit, panicking on a usize overflow |
| Syntax.IndexOf | src/syntax.rs:139-157 | `syntax_index` moves forward or finds nothing and stays put |
| Syntax.ScanIndexReads | src/syntax.rs:139-157 | the digits the loop passes over, whitespace left out, are decimal digits and the result is their value |
| Syntax.IndexValue | src/syntax.rs:139-157 | a number found is the decimal value of the digits passed over, whitespace between them left out |
| Syntax.IndexAcrossWhitespace | src/syntax.rs:139-157 | " 1 2" is the index 12 |
| Syntax.IndexExamples | src/syntax.rs:486-525 | the source's tests: nothing in "" and "a1fasd", 0 in "0", 123 in "123adf" |
| Syntax.SyntaxIndex | src/syntax.rs:139-157 | the method's loop gives the index and the iterator `IndexOf` describes, or panics where it does |
| Syntax.SyntaxRange | src/syntax.rs:159-178 | a range read moves forward |
| Syntax.Accessor | src/syntax.rs:180-201 | no accessor exactly when no '[' is current, and then the iterator stays put |
| Syntax.AccessorWhole | src/syntax.rs:574-593 | "[]" and "[:]" are the whole register |
| Syntax.AccessorBothIndices | src/syntax.rs:595-603 | "[3:5]" keeps both indices as given |
| Syntax.AccessorOneIndex | src/syntax.rs:605-623 | "[3:]" ends at the lowest bit and "[:5]" starts at the highest |
| Syntax.AccessorSingleIndex | src/syntax.rs:159-178 | "[7]" is bits 7 down to 0 |
| Syntax.AccessorUnclosed | src/syntax.rs:180-201 | a missing ']' is refused with the message of its kind |
| Syntax.Letter | src/syntax.rs:203-232 | a letter read moves forward and yields a literal |
| Syntax.LetterOfAnyChar | src/syntax.rs:528-571 | any character between quotes, space and quote included, is the literal `from_char` makes of it |
| Syntax.LetterRejects | src/syntax.rs:544-556 | two characters or none between the quotes are refused |
| Syntax.OperatorAt | src/syntax.rs:234-272 | with an operator the iterator lands past the keyword of the arm taken and past whitespace, and without one it stays put |
| Syntax.GreaterKeywords | src/syntax.rs:234-272 | ">>>" wins over ">>", which wins over ">" |
| Syntax.LessKeywords | src/syntax.rs:234-272 | "<<~" and "<>" win over "<<", which wins over "<" |
| Syntax.EqualsAndTildeKeywords | src/syntax.rs:234-272 | "==" is equality and a lone '=' assignment, "~>>" a cyclic shift and a lone '~' bit negation |
| Syntax.SharedLetterKeywords | src/syntax.rs:234-272 | "unsigned", "undo", "signed" and "shf" are each read as themselves |
| Syntax.ReverseKeyword | src/syntax.rs:234-272 | "rev" is read as reverse, past the other keywords starting with 'r' |
| Syntax.ScanLiteral | src/syntax.rs:333-352 | the literal loop stops at the end or at a character that cannot be in a literal |
| Syntax.ScanLiteralReads | src/syntax.rs:333-352 | the loop appends exactly the characters it passes over, whitespace left out |
| Syntax.NumberLiteral | src/syntax.rs:333-352 | a number read moves forward and yields a literal |
| Syntax.SyntaxNumber | src/syntax.rs:333-352 | the method's loop yields what `NumberLiteral` describes, its error or its panic |
| Syntax.RadixNumber | src/syntax.rs:305-331 | a radix number read moves forward and yields a literal |
| Syntax.NegativeNumber | src/syntax.rs:274-284 | a negative number read moves forward and yields a literal |
| Syntax.Rvalue | src/syntax.rs:286-303 | the right operand is empty exactly at the end of the command |
| Syntax.LiteralStopsAtNonHex | src/syntax.rs:333-352 | "1g" stops before the 'g', and "1 2" reads as "12" |
| Syntax.RadixTooBig | src/syntax.rs:305-331 | an arbitrary radix of 38 is refused with its message |
| Syntax.RadixRefused | src/syntax.rs:305-331 | every closed arbitrary radix above 37 is refused with its message |
| Syntax.RadixMalformed | src/syntax.rs:305-331 | an arbitrary radix must be closed and must not be empty |
| Syntax.RadixAtEnd | src/syntax.rs:305-331 | a '0' that ends the command is the literal 0 |
| Syntax.Parse | src/syntax.rs:354-379 | a parsed command always has a range on the left |
| Syntax.ParseWithoutAccessor | src/syntax.rs:354-379 | a command not opening with '[' works on the whole register |
| Syntax.ParseDigitFirst | src/syntax.rs:354-379 | a command opening with a digit assigns a literal to the whole register |
| Syntax.ParseMinusFirst | src/syntax.rs:354-379 | a command opening with '-' is a subtraction, not a negative literal |
| Syntax.ParseBlank | src/syntax.rs:354-379 | a command of whitespace alone assigns nothing to the whole register |
| Syntax.ParseLiteral | src/syntax.rs:354-379 | "1" assigns the eight-bit 1 to the whole register |
| Syntax.ParseMinusOne | src/syntax.rs:354-379 | "-1" subtracts the eight-bit 1 |
| Syntax.ParseChain | src/syntax.rs:354-379 | once the accessor and the operator are read, the right operand decides the command, which must end after it |
| Syntax.ParseAssignment | src/syntax.rs:354-379 | with neither accessor nor operator, the command is the right operand followed by nothing, or refused with what is left |
| Syntax.ParseLeftover | src/syntax.rs:373-377 | "1]" is refused with the rest "]" in the message |
| Operators.SecondOperand | src/operators.rs:87-114 | the second operand of a binary handler is a u128 |
| Operators.Applied | src/operators.rs:170-203 | a refused operand, such as a zero divisor, leaves the register alone |
| Operators.Binary | src/operators.rs:59-379 | the binary handlers report either an error, leaving the register alone, or success into the history |
| Operators.OperatorBinary | src/operators.rs:59-379 | the handler methods take the register to the outcome `Binary` describes |
| Operators.ExtendedLiteral | src/operators.rs:87-114 | a literal operand is read whole after `signed_extend_to(max_size)` |
| Operators.RootRequest | src/operators.rs:266-298 | `root` hands over the target range (and an exponent) exactly when neither side is a named part |
| Operators.ShiftCount | src/operators.rs:458-489 | the shift count is a usize |
| Operators.Shift | src/operators.rs:458-621 | the shift handlers always succeed into the history |
| Operators.OperatorShift | src/operators.rs:458-621 | the handler methods take the register to the outcome `Shift` describes |
| Operators.Complement | src/operators.rs:381-405 | a refused `~` leaves the register alone |
| Operators.OperatorNot | src/operators.rs:381-405 | the method takes the register to the outcome `Complement` describes |
| Operators.Reversal | src/operators.rs:407-422 | a refused `rev` leaves the register alone |
| Operators.OperatorReverse | src/operators.rs:407-422 | the method takes the register to the outcome `Reversal` describes |
| Operators.OperatorIntBitsWidth | src/operators.rs:623-631 | the method takes the register to the outcome `IntWidth` describes |
| Operators.Resigned | src/operators.rs:664-672 | `signed` and `unsigned` always succeed |
| Operators.OperatorSignedness | src/operators.rs:664-672 | the method takes the register to the outcome `Resigned` describes |
| Operators.OperatorCount | src/operators.rs:633-662 | the method answers what `Counted` describes |
| Operators.OperatorCompare | src/operators.rs:674-756 | the method answers what `Compared` describes |
| Operators.Swapped | src/operators.rs:758-776 | a refused swap leaves the register alone |
| Operators.OperatorSwap | src/operators.rs:758-776 | the method takes the register to the outcome `Swapped` describes |
| Operators.OperatorNegate | src/operators.rs:778-796 | the method takes the register to the outcome `Negation` describes |
| Operators.OperatorUndo | src/operators.rs:798-801 | undo leaves the register alone and asks for a step back |
| Operators.OperatorRedo | src/operators.rs:802-805 | redo leaves the register alone and asks for a step forward |
| OperatorLaws.LiteralOperand | src/operators.rs:87-114 | a literal operand is sign-extended to the register: a non-negative one is its buffer, a negative one gains ones above its width, and a signed one keeps its two's-complement value |
| OperatorLaws.ZeroOperand | src/operators.rs:87-114 | the literal zero is read as zero at any width |
| OperatorLaws.DivisionByZeroRefused | src/operators.rs:170-203 | a zero divisor, literal or range, is refused with its own message and the register is left alone |
| OperatorLaws.NoSecondOperandRefused | src/operators.rs:59-379 | every binary handler except `pow` refuses a missing second operand |
| OperatorLaws.PowDefaultSquares | src/operators.rs:232-264 | `pow` without a second operand squares the target range, wrapping at its width |
| OperatorLaws.RootDefaultSquare | src/operators.rs:266-298 | `root` without a second operand asks for the square root of the target range |
| OperatorLaws.ShiftByOneDefault | src/operators.rs:458-489 | a shift without a second operand shifts by one |
| OperatorLaws.ShiftLeftMultiplies | src/operators.rs:458-489 | `<<` multiplies the target range by 2^count, wrapping at its width |
| OperatorLaws.SignedShiftRightHalves | src/operators.rs:491-525 | `>>` divides the target range's signed value by 2^count, rounding down |
| OperatorLaws.UnsignedShiftRightDivides | src/operators.rs:527-557 | `>>>` divides the target range by 2^count |
| OperatorLaws.CyclicShiftRightRotates | src/operators.rs:559-589 | `~>>` rotates the target range right by the count |
| OperatorLaws.CyclicShiftLeftRotates | src/operators.rs:591-621 | `<<~` rotates the target range left by the count |
| OperatorLaws.ComplementReads | src/operators.rs:381-405 | `~` writes the complement of the source range, or of the target itself, into the target range |
| OperatorLaws.ComplementTwice | src/operators.rs:381-405 | complementing a range twice restores the register |
| OperatorLaws.ReversalReverses | src/operators.rs:407-422 | `rev` reverses the bits of the target range |
| OperatorLaws.IntWidthKeepsLowBits | src/operators.rs:623-631 | `int` with a literal makes the register an integer of that width keeping the low bits and the signedness, and without one it is refused |
| OperatorLaws.SignednessReplaces | src/operators.rs:664-672 | `signed` and `unsigned` keep the width and the low bits and set the signedness, and the later one wins |
| OperatorLaws.CountAnswers | src/operators.rs:633-662 | `cnt` shows the ones (for 1 or no operand) or zeros (for 0) of the range, refuses other operands, and leaves the register alone |
| OperatorLaws.CompareAnswers | src/operators.rs:674-756 | the comparisons answer "yes" or "no" for the target bits against the literal at its own width or the source range, and refuse a missing operand |
| OperatorLaws.SwapExchanges | src/operators.rs:758-776 | `<>` on disjoint ranges of one width exchanges their bits |
| OperatorLaws.SwapKeepsOtherBits | src/operators.rs:758-776 | `<>` keeps every bit outside both ranges |
| OperatorLaws.NegationAnswers | src/operators.rs:778-796 | `!` succeeds exactly on the whole register without an operand, and then holds the two's complement of the value |
| OperatorLaws.NegationTwice | src/operators.rs:778-796 | negating the whole register twice restores its value |
| Histories.SaveBounded | src/history.rs:36-45 | saving keeps the list within its bound, puts the snapshot last, empties the redo list and keeps the most recent earlier entries in order |
| Histories.BackwardMoves | src/history.rs:46-55 | stepping back moves the last entry onto the redo list and yields the one before it, or stays put on a single entry |
| Histories.ForwardMoves | src/history.rs:56-64 | stepping forward moves the last redo entry back and yields it, or yields the last entry when there is nothing to redo |
| Histories.BackwardThenForward | src/history.rs:46-64 | stepping back then forward restores both lists |
| Histories.SaveForgetsRedo | src/history.rs:36-64 | after saving there is nothing to step forward to |
| Histories.History.constructor | src/history.rs:28-35 | a history starts with two empty lists |
| Histories.History.Save | src/history.rs:36-45 | the new state is `AfterSave` of the old one |
| Histories.History.Backward | src/history.rs:46-55 | the new state and the snapshot are `AfterBackward` of the old state |
| Histories.History.Forward | src/history.rs:56-64 | the new state and the snapshot are `AfterForward` of the old state |
| LegacyNumbers.LowValueMod | src/number/mod.rs:127-140 | the low n bits of a vector are its low m bits reduced modulo 2^n |
| LegacyNumbers.UpperValue | src/number/mod.rs:127-140 | the bits from position l on stand for the value shifted down by l |
| LegacyNumbers.SliceValue | src/number/mod.rs:127-140 | a slice of the vector holds the field of its value |
| LegacyNumbers.SigningBits | src/number/mod.rs:189-197 | `signing_bits` is the bit length of the number |
| LegacyNumbers.RippleAddWord | src/number/mod.rs:72-89 | the ripple adder adds the u32 modulo 2^m, reports the carry out exactly on overflow and keeps the bits above m |
| LegacyNumbers.RippleAddBits | src/number/mod.rs:98-114 | the boolean adder adds the vectors modulo 2^m and keeps the bits above m |
| LegacyNumbers.AdderResult | src/number/mod.rs:72-114 | a full adder run over m positions adds modulo 2^m, with the carry out exactly on overflow |
| LegacyNumbers.WholeBytes | src/number/mod.rs:63 | the padded length is a multiple of 8 within a byte of the length |
| LegacyNumbers.PaddedValue | src/number/mod.rs:64-68 | padding with false bits keeps the value |
| LegacyNumbers.SetThenGet | src/number/mod.rs:142-169 | `set_bits` writes the source into the range exactly and changes no other position |
| LegacyNumbers.SetBitsWritesField | src/number/mod.rs:142-169 | the value after `set_bits` is the old value with the field replaced |
| LegacyNumbers.Number.New | src/number/mod.rs:31-39 | `new` gives max_size false bits and no carry |
| LegacyNumbers.Number.From | src/number/mod.rs:40-70 | `from` holds the value of the digits modulo 2^usize::MAX, and its max_size is the bit length of the value (at least one bit) rounded up to whole bytes, the vector padded to it, with no carry left by the last digit's addition |
| LegacyNumbers.FromZeroWidth | src/number/mod.rs:332-334 | "0" in radix 10 gets a max_size of 8 |
| LegacyNumbers.FromOctalWidth | src/number/mod.rs:392-394 | "1111" in radix 8, ten bits, gets a max_size of 16 |
| LegacyNumbers.FromBinaryOnesWidth | src/number/mod.rs:387-388 | k binary ones get a max_size of k rounded up to whole bytes, 40 for the forty ones of the test |
| LegacyNumbers.Number.ParseDigits | src/number/mod.rs:49-62 | the digit loop holds the value of the digits modulo 2^max_size, and when the value fits, a vector as long as its bit length (at least one bit) |
| LegacyNumbers.Number.FoldDigit | src/number/mod.rs:56-58 | one digit is folded in as a multiplication by the radix and an addition modulo 2^max_size, and when the result fits the vector grows to its bit length |
| LegacyNumbers.Number.PadToBytes | src/number/mod.rs:63-68 | the vector is padded with false bits to whole bytes, which become max_size |
| LegacyNumbers.Number.AddNumber | src/number/mod.rs:72-89 | the u32 is added modulo 2^max_size, with the carry out exactly on overflow; when the sum fits, the vector is as long as the longer of the old vector and the sum's bit length |
| LegacyNumbers.Number.AddBools | src/number/mod.rs:98-114 | the vector is added modulo 2^max_size; when the sum fits and the addend is no longer, the vector is as long as the longer of the old vector and the sum's bit length |
| LegacyNumbers.Number.MulNumber | src/number/mod.rs:91-96 | repeated addition multiplies modulo 2^max_size, and a factor of 0 or 1 leaves the vector as it was; when the product fits, the vector is as long as the longer of the old vector and the product's bit length |
| LegacyNumbers.Number.AssignValue | src/number/mod.rs:116-125 | the register takes the other's vector, width, type and signedness, and clears its carry |
| LegacyNumbers.Number.GetBits | src/number/mod.rs:127-140 | the slice read holds the field of the value between the resolved indices |
| LegacyNumbers.Number.SetBits | src/number/mod.rs:142-169 | the new vector is the old one with the range written from the source |
| LegacyNumbers.Number.ExtendTo | src/number/mod.rs:175-182 | the vector is padded to the new width and keeps its value |
| LegacyNumbers.Number.Display | src/number/mod.rs:199-213 | "0b" followed by every bit of the vector, most significant first |
| LegacySyntax.Start | src/syntax/mod.rs:26-38 | an iterator starts at offset 0 exactly for an ASCII command, and any other command is refused |
| LegacySyntax.Current | src/syntax/mod.rs:39-45 | no current character exactly at or past the end |
| LegacySyntax.AfterNext | src/syntax/mod.rs:63-68 | `next` moves one character on unless at the end |
| LegacySyntax.ParsingIterator.constructor | src/syntax/mod.rs:31-36 | an iterator at offset 0 of its command |
| LegacySyntax.ParsingIterator.MatchFromCurrent | src/syntax/mod.rs:54-62 | the loop answers whether the sequence matches at the current character |
| LegacySyntax.ParsingIterator.Next | src/syntax/mod.rs:63-68 | the new state is `AfterNext` of the old one, and the result is its current character |
| LegacySyntax.ParsingIterator.RewindN | src/syntax/mod.rs:69-72 | the iterator moves n characters on |
| LegacySyntax.ParsingIterator.Rewind | src/syntax/mod.rs:73-75 | the iterator moves one character on |
| LegacySyntax.From | src/syntax/mod.rs:26-38 | `from` builds the iterator `Start` describes, or refuses a command that is not ASCII |
| LegacySyntax.IteratorExamples | src/syntax/mod.rs:237-270 | the iterator over "" has no current character, and the one over "abc" reads 'a' then 'b' |
| LegacySyntax.NonAsciiRefused | src/syntax/mod.rs:237-241 | a command in kana is refused |
| LegacySyntax.MatchExamples | src/syntax/mod.rs:272-297 | the source's matching tests over "abc" |
| LegacySyntax.ScanIndex | src/syntax/mod.rs:78-96 | the digit loop moves forward and stops at the end or a character that is not a decimal digit, panicking on a usize overflow |
| LegacySyntax.IndexOf | src/syntax/mod.rs:78-96 | `syntax_index` finds nothing exactly when no decimal digit is current |
| LegacySyntax.ScanIndexReads | src/syntax/mod.rs:78-96 | the characters passed over are decimal digits and the result is their value |
| LegacySyntax.IndexValue | src/syntax/mod.rs:78-96 | a number found is the value of the digits passed over |
| LegacySyntax.ScanWholeRun | src/syntax/mod.rs:78-96 | the loop over a run of digits reads them all |
| LegacySyntax.IndexOfRun | src/syntax/mod.rs:78-96 | a command of digits alone is read whole as its value |
| LegacySyntax.IndexAbsent | src/syntax/mod.rs:299-339 | "" and "a1fasd" have no index |
| LegacySyntax.IndexExamples | src/syntax/mod.rs:299-339 | "0" is 0 and "123adf" is 123 |
| LegacySyntax.SyntaxIndex | src/syntax/mod.rs:78-96 | the method's loop gives the index and the iterator `IndexOf` describes, or panics where it does |
| LegacySyntax.SyntaxRange | src/syntax/mod.rs:98-117 | a range read moves forward or panics |
| LegacySyntax.Accessor | src/syntax/mod.rs:119-139 | no accessor exactly when no '[' is current, and otherwise a range |
| LegacySyntax.RangeWithoutColon | src/syntax/mod.rs:98-117 | without ':' the range is the index read, or the highest bit, at both ends |
| LegacySyntax.AccessorNoColon | src/syntax/mod.rs:119-139 | "[]" is bit Highest alone, "[7]" bit 7 alone and "[:]" the whole register |
| LegacySyntax.AccessorWithColon | src/syntax/mod.rs:119-139 | "[3:5]", "[3:]" and "[:5]" as written, a missing end being the lowest or the highest bit |
| LegacySyntax.AccessorErrors | src/syntax/mod.rs:119-139 | an unclosed accessor is refused with the message of its kind |
| LegacySyntax.OperatorAt | src/syntax/mod.rs:141-150 | an operator is found exactly at "<<", '=' or '+', the iterator moving past it |
| LegacySyntax.OperatorExamples | src/syntax/mod.rs:141-150 | "<<", "=" and "+" are their operators and a lone '<' is none |
| LegacySyntax.ScanLiteral | src/syntax/mod.rs:197-210 | the literal loop stops at the end or a character that cannot be in a literal |
| LegacySyntax.ScanLiteralReads | src/syntax/mod.rs:197-210 | the loop appends exactly the characters it passes over |
| LegacySyntax.NumberLiteral | src/syntax/mod.rs:197-210 | a literal read keeps its radix and `Number::from` can read it, or parsing panics |
| LegacySyntax.NumberLiteralReads | src/syntax/mod.rs:197-210 | the literal panics exactly when it holds a digit at or above the radix, and otherwise is the characters read |
| LegacySyntax.LiteralVerdict | src/syntax/mod.rs:197-210 | of the digits scanned, the literal panics exactly at one at or above the radix |
| LegacySyntax.SyntaxNumber | src/syntax/mod.rs:197-210 | the method's loop yields what `NumberLiteral` describes, or its panic |
| LegacySyntax.DecimalWithLetterPanics | src/syntax/mod.rs:197-210 | "1f" in radix 10 panics in `Number::from` |
| LegacySyntax.RadixNumber | src/syntax/mod.rs:169-195 | a radix number read yields a literal that `Number::from` can read |
| LegacySyntax.Rvalue | src/syntax/mod.rs:152-167 | the right operand is never a named part, and the end of the command is refused as no second operand |
| LegacySyntax.RadixTooBig | src/syntax/mod.rs:169-195 | an arbitrary radix of 38 is refused |
| LegacySyntax.RadixRefused | src/syntax/mod.rs:169-195 | every closed arbitrary radix from 38 up to `usize::MAX`, written in decimal digits, is refused with its own number in the message, whatever surrounds it |
| LegacySyntax.RadixAt | src/syntax/mod.rs:169-195 | a '(' then decimal digits worth more than 37 and at most `usize::MAX`, then ')', anywhere in the command, is refused with that number in the message |
| LegacySyntax.RadixArm | src/syntax/mod.rs:169-195 | the arm of a closed arbitrary radix above 37 refuses it with its message |
| LegacySyntax.ScanDigitRun | src/syntax/mod.rs:78-96 | the index loop over a run of digits followed by a non-digit stops right after them with their value |
| LegacySyntax.RadixUnclosed | src/syntax/mod.rs:169-195 | an arbitrary radix without ')' is refused |
| LegacySyntax.RadixMissing | src/syntax/mod.rs:169-195 | an empty arbitrary radix and an unknown radix letter are refused |
| LegacySyntax.RadixExamples | src/syntax/mod.rs:169-195 | a lone "0" is decimal 0 and "0x1f" is "1f" in radix 16 |
| LegacySyntax.CommandAt | src/syntax/mod.rs:212-235 | a parsed command has a range on the left and a literal `Number::from` can read |
| LegacySyntax.Parse | src/syntax/mod.rs:212-235 | a parsed command has a range on the left, and a command that is not ASCII panics |
| LegacySyntax.ParseIgnoresWhitespace | src/syntax/mod.rs:212-235 | parsing a command is parsing it with its whitespace removed |
| LegacySyntax.NoSecondOperand | src/syntax/mod.rs:212-235 | "" and "[]" are refused for lack of a second operand |
| LegacySyntax.ParseDefaults | src/syntax/mod.rs:212-235 | "1" assigns the decimal literal to the whole register |
| LegacySyntax.ParseLeftover | src/syntax/mod.rs:212-235 | "1]" is refused for its leftover |
| LegacySyntax.ParseExample | src/syntax/mod.rs:212-235 | "[7:0]=0x1f" assigns the hexadecimal "1f" to bits 7 to 0 |
| LegacyOperators.ParsedIsHandled | src/operators/mod.rs:20-46 | every command the parser yields can be given to the handler without a panic |
| LegacyOperators.OperatorAssign | src/operators/mod.rs:20-46 | a literal on the right replaces the register whatever the left range, taking the literal's max_size of whole bytes, anything else leaves it alone, and the command goes into the history |

## Left out

- `src/main.rs`, the read-eval-print loop, its terminal I/O and its history wiring, is not part of this model. `Operators.OperatorUndo` and `Operators.OperatorRedo` only return the request the loop acts on.
- `range_root_bits` (src/number.rs:163-169) computes through `f64`, and floating point is not modelled. Only the request `Operators.RootRequest` hands over is modelled.
- `range_shuffle_bits`, `operator_random` and `operator_shuffle` depend on a random number generator, and are not modelled.
- `number_of_digits_in_radix` uses `f32` logarithms, and is not modelled.
- `operator_show_help`, `to_string_as_char` and the coloured `Display` of `src/number.rs` only produce terminal text, and are not modelled.
- Panics of src/number.rs, src/operators.rs and src/history.rs become preconditions of the methods and functions that would reach them. They are:
  - a shift of 128 or more, including the second shift of a rotation, by width - count, which must also not underflow (`Numbers.ArithOk`);
  - a bit reversal of a zero-width range, whose `>> (128 - w)` shifts by 128 (`Numbers.ArithOk`);
  - a zero divisor inside `range_div_bits`/`range_mod_bits`;
  - a range whose low end is at or above bit 128, where the mask's `<< low` overflows, or that spans more than 128 bits, where `2i128.pow(n)` in `mask_n_ones_from_right` overflows (`Numbers.RangeOk`);
  - resolving `HighestBit` on a zero-width register, where `effective_bits - 1` underflows (`Numbers.Resolvable`);
  - `negate` of a register whose whole value reads as 2^127, where `-num` overflows the i128 (`Numbers.NegateOk`, required by `Register.Number.Negate`, and through `Operators.NegationOk` by `Operators.Negation`);
  - `is_negative` on a signed zero-width register, where `effective_bits - 1` underflows (`Numbers.SignReadable`);
  - `signed_extend_to` of a negative register with bit 127 set, a shift by 128 (`Numbers.SignExtendOk`);
  - `signed_shift_right` whose fill mask's shift by width - count underflows or reaches 128 (`Numbers.SignedShiftRightOk`);
  - counting zeros over a 128-bit range, whose helper mask is shifted by 128 (`Numbers.CountBitsOk`);
  - a radix other than 2, 8, 10, 16 in `to_string`;
  - a width above 128, in `Number::new` and in the `int` operator (`Operators.IntWidthOk`);
  - an `unwrap` on an empty backward list: `Histories.History.Backward` needs one entry, and `Histories.History.Forward` needs one only when the forward list is empty.
- Panics of src/number/mod.rs become preconditions too:
  - `len() - 1` for `HighestBit` on an empty vector (`LegacyNumbers.Resolvable`);
  - the slice `low..=high` of `get_bits` outside the vector (`LegacyNumbers.SliceOk`);
  - a `set_bits` whose first write lies past the end of the vector (`LegacyNumbers.SetOk`);
  - `extend_to` below the vector's length, where the copy loop indexes past the new vector (`LegacyNumbers.Number.ExtendTo` requires `|buffer| <= n`);
  - `Number::from` on a character that is not a digit or a digit at or above the radix (`LegacyNumbers.Parsable`). The legacy parser returns `Panic` for this case instead of excluding it.
- The pure parsers return `Panic` for a usize or u128 overflow in a literal or an index.
- Operands naming a part of the register (`NamedAccess`) reach `todo!()` or do nothing in the source. The handlers model them as doing nothing, and the paths that reach `todo!()` are excluded by preconditions.
- Numbers.GetBits: a range whose low end is one above its high end has no bits. `get_bits` reads 0 for it in the source, but `set_bits`, the ranged arithmetic and the counting compute `high - low + 1`, which underflows. The model requires low <= high for every range operation.
- Registers wider than 128 bits, which `Number::new` permits up to 512, are outside the model: `Valid()` bounds the effective bits by 128.
- Register.Number.ToString: keeps the printing as written, "-0" for the most negative value. The corrected printer is `Literals.ToStringIntended`, see Findings.
- Syntax.ParsingIterator.MatchFromCurrent: the source loops over the sequence's byte count, and the model reads the sequence as ASCII, as every keyword of the grammar is.
- LegacyNumbers.Number.AddBools: the carry out of the boolean adder is not stated, because the source leaves the register's carry as it was.
- LegacyNumbers.Number.AddNumber: the new vector length is stated exactly only when the sum fits in max_size bits; on overflow it is stated as a bound between the old length and the width. The same holds for `AddBools`, `MulNumber` and `FoldDigit`.
- LegacyNumbers.Number.From: the max_size and the cleared carry are stated for values below 2^usize::MAX, the only ones a vector can hold.
- LegacyNumbers.Number.GetBits: returns a copy of the slice, so the borrow of the source is not modelled.
- `current_2` of src/syntax/mod.rs:47-53 is never called by the grammar, and is not modelled.
- In src/syntax/mod.rs the rvalue branch for a range that is not correct cannot be reached after `syntax_accessor` succeeds, and it has no counterpart in the model.
- The legacy `[]` and `[i]` name the single bit Highest (or i), because `syntax_range` uses the index it read for both ends when no ':' follows (src/syntax/mod.rs:98-117). The current parser reads `[]` as the whole register (src/syntax.rs:573-582), and the help text lists `[]` beside `[:]` among the accessors (src/operators.rs:48). The model of the legacy parser follows its code.
- The legacy operator names `Sum` and `UnsignedShiftLeft` are parsed, but src/operators/mod.rs has no handler for them. Only `operator_assign` is modelled.
- The legacy literal stays text (the digits and the radix) in the parsed command. `Number::from`'s panic on a digit at or above the radix is modelled as `Panic` at parse time.
- Some legacy tests expect results that the code does not produce, and they are not encoded as lemmas:
  - `add_bools_test` (src/number/mod.rs:255-288) expects vector lengths of 1 to 5, where `from` pads the vector to whole bytes.
  - `number_get_bits` (src/number/mod.rs:412-425) expects 4 bits for "F" and 5 bits for "1E" at (Highest, Lowest), where both vectors are padded to 8 bits.
  - `number_set_bits` (src/number/mod.rs:427-432) expects all 8 bits set, where `set_bits` stops after the 2 bits of its source.

## Findings

| source | as written | input that shows it | evidently intended | confidence | as-written member | corrected member |
|---|---|---|---|---|---|---|
| src/number.rs:315-341 | a negative register prints `!(buffer - 1)` cut to the bits below the sign bit, after a '-' | the signed 8-bit register 0x80 (value -128) prints "-0" | the two's-complement value, "-128" | high, not executed | Literals.MostNegativePrintsMinusZero | Literals.MostNegativeIntended |
