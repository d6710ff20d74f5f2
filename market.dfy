/**
 * Values shared by the tick spider and the data manager: trading dates,
 * securities and the two tick cut-off dates of the settings module.
 */
module Market {

  datatype Option<T> = None | Some(value: T)

  /**
   * A trading date, as the number yyyymmdd, so integer order is date order.
   * This model assumes the source's dates are 'YYYY-MM-DD' strings, which
   * DateText gives back for use in a URL; the source itself does not fix
   * their format.
   */
  type Date = d: int | 0 <= d < 100000000

  /** A security is identified by its exchange (`sh`, `sz`) and its code. */
  datatype Security = Security(exchange: string, code: string)

  /** The symbol the quote site expects: exchange followed by code. */
  function Symbol(s: Security): (sym: string)
    ensures |sym| == |s.exchange| + |s.code|
    ensures sym[..|s.exchange|] == s.exchange && sym[|s.exchange|..] == s.code
  {
    s.exchange + s.code
  }

  /**
   * With two-letter exchange codes (`sh`, `sz`), the symbol determines the
   * security: exchange and code can be read back from it.
   */
  lemma SymbolInjective(a: Security, b: Security)
    requires |a.exchange| == 2 && |b.exchange| == 2
    requires Symbol(a) == Symbol(b)
    ensures a == b
  {
    assert a.exchange == Symbol(a)[..2];
    assert b.exchange == Symbol(b)[..2];
  }

  /** The settings START_TICK_DATE and AVAILABLE_TICK_DATE. */
  datatype Cutoffs = Cutoffs(startTickDate: Date, availableTickDate: Date)

  predicate IsDigit(c: char) {
    '0' <= c <= '9'
  }

  function DigitChar(n: int): (c: char)
    requires 0 <= n < 10
    ensures IsDigit(c)
  {
    (n + '0' as int) as char
  }

  function DigitValue(c: char): (n: int)
    requires IsDigit(c)
    ensures 0 <= n < 10
  {
    c as int - '0' as int
  }

  /** Two decimal digits, zero-padded. */
  function TwoDigits(n: int): (s: string)
    requires 0 <= n < 100
    ensures |s| == 2 && IsDigit(s[0]) && IsDigit(s[1])
  {
    [DigitChar(n / 10), DigitChar(n % 10)]
  }

  function ParseTwoDigits(s: string): (n: int)
    requires |s| == 2 && IsDigit(s[0]) && IsDigit(s[1])
    ensures 0 <= n < 100
  {
    DigitValue(s[0]) * 10 + DigitValue(s[1])
  }

  /** Four decimal digits, zero-padded. */
  function FourDigits(n: int): (s: string)
    requires 0 <= n < 10000
    ensures |s| == 4 && forall k :: 0 <= k < 4 ==> IsDigit(s[k])
  {
    TwoDigits(n / 100) + TwoDigits(n % 100)
  }

  function ParseFourDigits(s: string): (n: int)
    requires |s| == 4 && forall k :: 0 <= k < 4 ==> IsDigit(s[k])
    ensures 0 <= n < 10000
  {
    ParseTwoDigits(s[..2]) * 100 + ParseTwoDigits(s[2..])
  }

  /** The 'YYYY-MM-DD' text of a date. */
  function DateText(d: Date): (s: string)
    ensures |s| == 10 && s[4] == '-' && s[7] == '-'
    ensures forall k :: 0 <= k < 10 && k != 4 && k != 7 ==> IsDigit(s[k])
  {
    var year, rest := d / 10000, d % 10000;
    FourDigits(year) + "-" + TwoDigits(rest / 100) + "-" + TwoDigits(rest % 100)
  }

  /** Reads a 'YYYY-MM-DD' text back into a date; None when it is not one. */
  function ParseDate(s: string): (r: Option<Date>)
    ensures r.Some? ==> |s| == 10 && s[4] == '-' && s[7] == '-'
  {
    if |s| == 10 && s[4] == '-' && s[7] == '-'
       && (forall k :: 0 <= k < 10 && k != 4 && k != 7 ==> IsDigit(s[k]))
    then
      var v := ParseFourDigits(s[..4]) * 10000 + ParseTwoDigits(s[5..7]) * 100 + ParseTwoDigits(s[8..]);
      Some(v)
    else None
  }

  /** Reading the text of a date gives the date back. */
  lemma ParseDateText(d: Date)
    ensures ParseDate(DateText(d)) == Some(d)
  {
  }

  /** Distinct dates have distinct texts. */
  lemma DateTextInjective(d1: Date, d2: Date)
    requires DateText(d1) == DateText(d2)
    ensures d1 == d2
  {
    ParseDateText(d1);
    ParseDateText(d2);
  }
}
