/**
 * The result formatter: one answer line per (position, age, total) triple,
 * written as `OUTPUT_FORMAT = "%d:%d=%d"` prints it, and a parser that reads
 * such a line back, so that the format is shown to lose nothing.
 */
module ResultFormat {
  import opened Wrappers

  /** One line of an answer: the dense rank of the count, the age and the count. */
  datatype RankedEntry = RankedEntry(rank: nat, age: int, count: nat)

  predicate IsDigit(c: char)
  {
    '0' <= c <= '9'
  }

  predicate AllDigits(s: string)
  {
    forall i :: 0 <= i < |s| ==> IsDigit(s[i])
  }

  function DigitChar(d: nat): (c: char)
    requires d < 10
    ensures IsDigit(c) && c as int - '0' as int == d
  {
    ('0' as int + d) as char
  }

  /** The number a non-empty run of decimal digits denotes. */
  function DigitsValue(s: string): nat
    requires AllDigits(s)
  {
    if s == [] then 0
    else 10 * DigitsValue(s[..|s| - 1]) + (s[|s| - 1] as int - '0' as int)
  }

  /** The decimal digits of `n`, without leading zeros. */
  function NatToString(n: nat): (s: string)
    ensures 1 <= |s| && AllDigits(s)
    ensures n < 10 <==> |s| == 1
    ensures s[0] == '0' ==> n == 0
  {
    if n < 10 then [DigitChar(n)] else NatToString(n / 10) + [DigitChar(n % 10)]
  }

  lemma {:induction false} DigitsValueOfNatToString(n: nat)
    ensures DigitsValue(NatToString(n)) == n
  {
    if n >= 10 {
      var s := NatToString(n);
      assert s[..|s| - 1] == NatToString(n / 10);
      DigitsValueOfNatToString(n / 10);
    }
  }

  /** `%d` applied to an int: an optional minus sign, then the digits. */
  function IntToString(x: int): (s: string)
    ensures 1 <= |s| && ':' !in s && '=' !in s
  {
    if x < 0 then "-" + NatToString(-x) else NatToString(x)
  }

  function ParseInt(s: string): Option<int>
  {
    if 2 <= |s| && s[0] == '-' && AllDigits(s[1..]) then Some(-(DigitsValue(s[1..]) as int))
    else if 1 <= |s| && AllDigits(s) then Some(DigitsValue(s))
    else None
  }

  /** `%d` of a non-negative number reads back as that number. */
  lemma ParseNatToString(n: nat)
    ensures ParseInt(NatToString(n)) == Some(n as int)
  {
    var digits := NatToString(n);
    assert IsDigit(digits[0]);
    DigitsValueOfNatToString(n);
  }

  /** `%d` of a negative number, a minus sign and then its digits, reads back as that number. */
  lemma ParseMinusNatToString(n: nat)
    ensures ParseInt("-" + NatToString(n)) == Some(-(n as int))
  {
    var digits := NatToString(n);
    var s := "-" + digits;
    assert s[0] == '-' && s[1..] == digits;
    DigitsValueOfNatToString(n);
  }

  lemma ParseIntToString(x: int)
    ensures ParseInt(IntToString(x)) == Some(x)
  {
    if x < 0 {
      ParseMinusNatToString(-x);
    } else {
      ParseNatToString(x);
    }
  }

  /** The line `rank:age=count`. */
  function Format(e: RankedEntry): string
  {
    IntToString(e.rank) + ":" + IntToString(e.age) + "=" + IntToString(e.count)
  }

  /** Every entry formatted, in order: the `String[]` the entry points return. */
  function FormatAll(entries: seq<RankedEntry>): seq<string>
  {
    seq(|entries|, i requires 0 <= i < |entries| => Format(entries[i]))
  }

  /** Formatting one more entry appends its line. */
  lemma FormatAllAppend(out: seq<RankedEntry>, e: RankedEntry)
    ensures FormatAll(out + [e]) == FormatAll(out) + FormatAll([e])
  {
  }

  /** The position of the first `c` in `s`, or `|s|` when there is none. */
  function FirstIndexOf(s: string, c: char): (k: nat)
    ensures k <= |s|
    ensures k < |s| ==> s[k] == c
    ensures forall i :: 0 <= i < k ==> s[i] != c
  {
    if s == [] then 0 else if s[0] == c then 0 else 1 + FirstIndexOf(s[1..], c)
  }

  /** The text before and after the first `c` in `s`, if there is one. */
  function SplitAt(s: string, c: char): Option<(string, string)>
  {
    var i := FirstIndexOf(s, c);
    if i == |s| then None else Some((s[..i], s[i + 1..]))
  }

  lemma SplitAtJoin(x: string, c: char, y: string)
    requires c !in x
    ensures SplitAt(x + [c] + y, c) == Some((x, y))
  {
    var s := x + [c] + y;
    forall i | 0 <= i < |x|
      ensures s[i] != c
    {
      assert s[i] == x[i];
    }
    assert s[|x|] == c;
    assert FirstIndexOf(s, c) == |x|;
    assert s[..|x|] == x && s[|x| + 1..] == y;
  }

  function ParseFields(rank: string, age: string, count: string): Option<RankedEntry>
  {
    match (ParseInt(rank), ParseInt(age), ParseInt(count))
    case (Some(r), Some(a), Some(c)) =>
      if r >= 0 && c >= 0 then Some(RankedEntry(r, a, c)) else None
    case _ => None
  }

  /** Reads a line written by Format back into its triple. */
  function Parse(line: string): Option<RankedEntry>
  {
    match SplitAt(line, ':')
    case None => None
    case Some((rank, rest)) =>
      match SplitAt(rest, '=')
      case None => None
      case Some((age, count)) => ParseFields(rank, age, count)
  }

  /** Parsing a formatted line gives back the triple. */
  lemma ParseFormat(e: RankedEntry)
    ensures Parse(Format(e)) == Some(e)
  {
    var r, a, c := IntToString(e.rank), IntToString(e.age), IntToString(e.count);
    assert Format(e) == r + [':'] + (a + ['='] + c);
    SplitAtJoin(r, ':', a + ['='] + c);
    SplitAtJoin(a, '=', c);
    ParseIntToString(e.rank);
    ParseIntToString(e.age);
    ParseIntToString(e.count);
  }

  /** Distinct triples never share a line. */
  lemma FormatInjective(e1: RankedEntry, e2: RankedEntry)
    requires Format(e1) == Format(e2)
    ensures e1 == e2
  {
    ParseFormat(e1);
    ParseFormat(e2);
  }
}
