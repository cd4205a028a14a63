/** formatFileSize: which unit a byte count is shown in, and the exact text
    of the plain byte form. */
module FileSizeFormat {

  /** The three branches of formatFileSize. */
  datatype SizeUnit = Bytes | KiloBytes | MegaBytes

  /** The rendered size: the exact text "<value> Bytes", or an amount of KB
      or MB that the source prints with one decimal place. */
  datatype FormattedSize = Text(text: string) | Scaled(amount: real, suffix: string)

  /** The branch formatFileSize takes for `value`, checked in the source's
      order: KB first, then MB, else bytes. Exactly the values in
      [1024, 1048576) are shown in KB and exactly those above 1048576 in MB;
      every other value, negative ones and 1048576 itself included, is shown
      as a plain byte count. */
  function FileSizeUnit(value: int): (u: SizeUnit)
    ensures u == KiloBytes <==> 1024 <= value < 1048576
    ensures u == MegaBytes <==> value > 1048576
    ensures u == Bytes <==> value < 1024 || value == 1048576
  {
    if 1024 <= value < 1048576 then KiloBytes
    else if value > 1048576 then MegaBytes
    else Bytes
  }

  function DigitChar(d: nat): (c: char)
    requires d < 10
    ensures '0' <= c <= '9'
  {
    (48 + d) as char
  }

  function DigitValue(c: char): nat
    requires '0' <= c <= '9'
  {
    c as int - 48
  }

  predicate IsDigits(s: string) {
    forall i :: 0 <= i < |s| ==> '0' <= s[i] <= '9'
  }

  /** Decimal digits of `n`, most significant first, without leading zeros. */
  function NatToDecimal(n: nat): (s: string)
    ensures |s| >= 1 && IsDigits(s)
    ensures s[0] == '0' ==> n == 0
  {
    if n < 10 then [DigitChar(n)] else NatToDecimal(n / 10) + [DigitChar(n % 10)]
  }

  /** The value of a string of decimal digits. */
  function DecimalValue(s: string): nat
    requires IsDigits(s)
  {
    if s == [] then 0 else 10 * DecimalValue(s[..|s| - 1]) + DigitValue(s[|s| - 1])
  }

  /** Long.toString: a '-' before the digits of a negative value, and no
      leading zero except in "0" itself. */
  function LongToString(value: int): (s: string)
    ensures |s| >= 1
    ensures s[0] == '-' <==> value < 0
    ensures s[0] == '-' ==> |s| >= 2 && IsDigits(s[1..]) && s[1] != '0'
    ensures s[0] != '-' ==> IsDigits(s)
    ensures s[0] == '0' ==> s == "0"
  {
    if value < 0 then "-" + NatToDecimal(-value) else NatToDecimal(value)
  }

  /** Reading the digits back gives the number. */
  lemma {:induction false} DecimalRoundTrip(n: nat)
    ensures DecimalValue(NatToDecimal(n)) == n
  {
    if n >= 10 {
      DecimalRoundTrip(n / 10);
      var s := NatToDecimal(n);
      assert s[..|s| - 1] == NatToDecimal(n / 10);
    }
  }

  /** Text of the form Long.toString produces: digits, with an optional leading '-'. */
  predicate IsLongText(s: string) {
    (|s| >= 2 && s[0] == '-' && IsDigits(s[1..])) || (|s| >= 1 && IsDigits(s))
  }

  /** The value of such a text. */
  function LongValue(s: string): int
    requires IsLongText(s)
  {
    if s[0] == '-' then -(DecimalValue(s[1..]) as int) else DecimalValue(s)
  }

  /** Reading Long.toString back, sign included, gives the value; the text
      starts with '-' exactly for a negative value. */
  lemma LongToStringRoundTrip(value: int)
    ensures IsLongText(LongToString(value)) && LongValue(LongToString(value)) == value
    ensures LongToString(value)[0] == '-' <==> value < 0
  {
    var s := LongToString(value);
    if value < 0 {
      DecimalRoundTrip(-value);
      assert s[1..] == NatToDecimal(-value);
    } else {
      DecimalRoundTrip(value);
    }
  }

  /** formatFileSize, up to the one-decimal rendering of the KB and MB
      amounts: the plain form is the value's decimal text, sign and no
      leading zeros, followed by " Bytes";
      a KB amount lies in [1, 1024) and is the value in units of 1024; an MB
      amount is above 1 and is the value in units of 1048576. */
  function FormatFileSize(value: int): (f: FormattedSize)
    ensures f.Text? <==> FileSizeUnit(value) == Bytes
    ensures f.Text? ==>
              |f.text| > 6 && f.text[|f.text| - 6..] == " Bytes" &&
              IsLongText(f.text[..|f.text| - 6]) && LongValue(f.text[..|f.text| - 6]) == value &&
              (f.text[0] == '0' ==> f.text == "0 Bytes") &&
              (f.text[0] == '-' ==> f.text[1] != '0')
    ensures FileSizeUnit(value) == KiloBytes ==>
              f.Scaled? && f.suffix == " KB" && f.amount * 1024.0 == value as real && 1.0 <= f.amount < 1024.0
    ensures FileSizeUnit(value) == MegaBytes ==>
              f.Scaled? && f.suffix == " MB" && f.amount * 1048576.0 == value as real && f.amount > 1.0
  {
    match FileSizeUnit(value)
    case KiloBytes => Scaled(value as real / 1024.0, " KB")
    case MegaBytes => Scaled(value as real / 1048576.0, " MB")
    case Bytes =>
      var digits := LongToString(value);
      LongToStringRoundTrip(value);
      var text := digits + " Bytes";
      assert text[..|text| - 6] == digits;
      Text(text)
  }

  /** The unit is not monotone in the value: 1048575 bytes is shown in KB,
      1048576 as plain bytes, 1048577 in MB. */
  lemma BoundaryFallsThrough()
    ensures FileSizeUnit(1048575) == KiloBytes
    ensures FileSizeUnit(1048576) == Bytes
    ensures FileSizeUnit(1048577) == MegaBytes
    ensures FormatFileSize(1048576) == Text("1048576 Bytes")
  {
    BoundaryDigits();
  }

  lemma BoundaryDigits()
    ensures NatToDecimal(1048576) == "1048576"
  {
    assert NatToDecimal(1) == "1";
    assert NatToDecimal(10) == NatToDecimal(1) + "0" == "10";
    assert NatToDecimal(104) == NatToDecimal(10) + "4" == "104";
    assert NatToDecimal(1048) == NatToDecimal(104) + "8" == "1048";
    assert NatToDecimal(10485) == NatToDecimal(1048) + "5" == "10485";
    assert NatToDecimal(104857) == NatToDecimal(10485) + "7" == "104857";
    assert NatToDecimal(1048576) == NatToDecimal(104857) + "6" == "1048576";
  }

  /** formatFileSize(500) is "500 Bytes"; 2048 is 2 KB; 3000000 is shown in MB. */
  lemma FormatExamples()
    ensures FormatFileSize(500) == Text("500 Bytes")
    ensures FormatFileSize(2048) == Scaled(2.0, " KB")
    ensures FormatFileSize(3000000).Scaled? && FormatFileSize(3000000).suffix == " MB"
  {
    assert NatToDecimal(500) == "500" by {
      assert NatToDecimal(5) == "5";
      assert NatToDecimal(50) == "50";
    }
  }
}
