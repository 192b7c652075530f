/** Text as byte strings, one character a byte: splitting and decimal numbers. */
module Text {
  import opened Base

  /** `str::split`: the pieces between separators, at least one. */
  function Split(text: string, sep: char): (parts: seq<string>)
    ensures |parts| >= 1
    decreases |text|
  {
    var cut := SplitOnce(text, sep);
    if cut.None? then [text] else [cut.value.0] + Split(cut.value.1, sep)
  }

  /** `str::split_once`: the text before and after the first separator. */
  function SplitOnce(text: string, sep: char): (r: Option<(string, string)>)
    ensures r.None? <==> sep !in text
    ensures r.Some? ==> sep !in r.value.0 && text == r.value.0 + [sep] + r.value.1
  {
    if text == "" then None
    else if text[0] == sep then Some(("", text[1..]))
    else
      var rest := SplitOnce(text[1..], sep);
      if rest.None? then None else Some(([text[0]] + rest.value.0, rest.value.1))
  }

  predicate IsDigit(c: char) {
    '0' <= c <= '9'
  }

  /** The decimal value of a digit string. */
  function Decimal(digits: string): nat
    requires forall c :: c in digits ==> IsDigit(c)
  {
    if digits == "" then 0
    else
      assert IsDigit(Last(digits));
      10 * Decimal(Init(digits)) + (Last(digits) as nat - '0' as nat)
  }

  lemma {:induction false} SplitOnceAt(before: string, sep: char, after: string)
    requires sep !in before
    ensures SplitOnce(before + [sep] + after, sep) == Some((before, after))
    decreases before
  {
    var text := before + [sep] + after;
    if before == "" {
      assert text[1..] == after;
    } else {
      SplitOnceAt(before[1..], sep, after);
      assert text[1..] == before[1..] + [sep] + after;
      assert before == [before[0]] + before[1..];
    }
  }

  function Digit(d: nat): char
    requires d < 10
  {
    '0' + d as char
  }

  /** The decimal text of a number, without leading zeros. */
  function ToDecimal(n: nat): (text: string)
    ensures text != "" && forall c :: c in text ==> IsDigit(c)
  {
    if n < 10 then [Digit(n)] else ToDecimal(n / 10) + [Digit(n % 10)]
  }

  /** Reading a decimal text gives the number back. */
  lemma {:induction false} DecimalRoundTrip(n: nat)
    ensures Decimal(ToDecimal(n)) == n
  {
    if n >= 10 {
      DecimalRoundTrip(n / 10);
      assert Init(ToDecimal(n)) == ToDecimal(n / 10);
    } else {
      assert Init(ToDecimal(n)) == "";
    }
  }
}
