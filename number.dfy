/** parse_number in cJSON2_Parse.c hands the text to strtod and then
    decides from strtod's result whether the number is acceptable.

    strtod itself (decimal to binary conversion) is not modelled: a
    `Scanner` stands for it and reports how many characters it consumed,
    whether the result was ±HUGE_VAL, exactly zero, or anything else, and
    whether the conversion set errno to ERANGE. */
module Number {
  import opened Text

  datatype Magnitude = HugeValue | ZeroValue | OtherValue

  /** What one strtod call reports. */
  datatype Conversion = Conversion(consumed: nat, magnitude: Magnitude, range: bool)

  type Scanner = (string, nat) -> Conversion

  /** The characters strtod can take after its leading whitespace: signs,
      digits, the decimal point, exponent and hexadecimal letters, the
      letters of "inf", "infinity" and "nan", and the characters of a
      "nan(...)" payload. */
  predicate NumberChar(ch: char) {
    IsDigit(ch) || 'a' <= ch <= 'z' || 'A' <= ch <= 'Z' || ch in {'+', '-', '.', '(', ')', '_'}
  }

  /** What the C library guarantees of strtod at position `i`: it stops
      before the terminator, when it converts nothing it returns zero, and
      from a position that holds no space it takes only characters of a
      number. */
  predicate ConversionFits(s: string, i: nat, conv: Conversion) {
    && (conv.consumed == 0 ==> conv.magnitude == ZeroValue)
    && (forall k :: i <= k < i + conv.consumed ==> At(s, k) != '\0')
    && (!IsSpace(At(s, i)) ==> forall k :: i <= k < i + conv.consumed ==> NumberChar(At(s, k)))
  }

  ghost predicate ScannerFits(scan: Scanner) {
    forall s: string, i: nat :: ConversionFits(s, i, scan(s, i))
  }

  /** The three tests of parse_number as written. errno is not cleared
      before strtod, and strtod leaves it alone when it succeeds, so what the
      underflow test sees is ERANGE from this conversion or from any earlier
      library call (`errnoWasRange`). */
  predicate AcceptedAsWritten(conv: Conversion, errnoWasRange: bool) {
    var errnoIsRange := ErrnoAfter(conv, errnoWasRange);
    if conv.magnitude == HugeValue then false                    // overflow
    else if conv.magnitude == ZeroValue && errnoIsRange then false  // underflow
    else if conv.magnitude == ZeroValue && conv.consumed == 0 then false  // no conversion
    else true
  }

  /** Whether errno holds ERANGE after the conversion: strtod sets it on
      overflow and underflow and never clears it. */
  predicate ErrnoAfter(conv: Conversion, errnoWasRange: bool) {
    errnoWasRange || conv.range
  }

  /** The tests with errno cleared before the conversion, so that the
      underflow test sees only this conversion's ERANGE. */
  predicate Accepted(conv: Conversion) {
    AcceptedAsWritten(conv, false)
  }

  /** The corrected test: a number is taken exactly when strtod consumed
      something and neither overflowed nor underflowed to zero; what earlier
      library calls left in errno plays no part. */
  lemma AcceptedMeansConverted(s: string, i: nat, conv: Conversion)
    requires ConversionFits(s, i, conv)
    ensures Accepted(conv) <==>
      conv.consumed > 0 && conv.magnitude != HugeValue && !(conv.magnitude == ZeroValue && conv.range)
    ensures Accepted(conv) ==> i + conv.consumed <= |s|
  {
    if Accepted(conv) {
      assert At(s, i + conv.consumed - 1) != '\0';
    }
  }

  /** The code as written rejects "0" whenever errno already holds ERANGE
      when parse_number runs, although strtod converted it cleanly; the
      corrected test accepts it. */
  lemma StaleErrnoRejectsZero()
    ensures ConversionFits("0", 0, Conversion(1, ZeroValue, false))
    ensures !AcceptedAsWritten(Conversion(1, ZeroValue, false), true)
    ensures Accepted(Conversion(1, ZeroValue, false))
  {
    assert At("0", 0) == '0';
  }

  /** Within one document: a subnormal such as 1e-310 converts to a nonzero
      value and sets ERANGE, so it is accepted, and the ERANGE it leaves
      behind makes the code as written reject a later 0, as in "[1e-310,0]".
      The corrected test accepts both. */
  lemma EarlierSubnormalRejectsLaterZero()
    ensures var first := Conversion(6, OtherValue, true);
            var second := Conversion(1, ZeroValue, false);
            && AcceptedAsWritten(first, false)
            && !AcceptedAsWritten(second, ErrnoAfter(first, false))
            && Accepted(first) && Accepted(second)
  {
  }

  /** The two agree whenever errno is clear on entry or the value is not zero. */
  lemma AsWrittenAgrees(conv: Conversion, errnoWasRange: bool)
    ensures !errnoWasRange || conv.magnitude != ZeroValue ==> AcceptedAsWritten(conv, errnoWasRange) == Accepted(conv)
    ensures AcceptedAsWritten(conv, errnoWasRange) ==> Accepted(conv)
  {
  }
}
