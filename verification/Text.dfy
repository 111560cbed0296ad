/** Text as the code builds it.

    Decimal numbers as `format!` writes them, parts joined by a separator, and the
    converse: a text cut at the first separator has one reading, so decimal lengths,
    tile coordinates, manifest paths and dotted identifiers can be told apart again. */
module Text {

  const DIGITS: string := "0123456789"

  predicate IsDigit(c: char) { '0' <= c <= '9' }

  function Digit(d: nat): (c: char)
    requires d < 10
    ensures IsDigit(c) && c as int == '0' as int + d
  {
    DIGITS[d]
  }

  /** `{}` for an unsigned integer. */
  function Decimal(n: nat): (s: string)
    ensures s != [] && forall c <- s :: IsDigit(c)
  {
    if n < 10 then [Digit(n)] else Decimal(n / 10) + [Digit(n % 10)]
  }

  /** The number a digit string denotes. */
  function Number(s: string): nat
    requires forall c <- s :: IsDigit(c)
  {
    if s == [] then 0
    else
      assert IsDigit(s[|s| - 1]);
      10 * Number(s[..|s| - 1]) + (s[|s| - 1] as int - '0' as int)
  }

  lemma {:induction false} NumberOfDecimal(n: nat)
    ensures Number(Decimal(n)) == n
  {
    if n >= 10 {
      NumberOfDecimal(n / 10);
      assert Decimal(n)[..|Decimal(n)| - 1] == Decimal(n / 10);
    } else {
      assert Decimal(n)[..0] == [];
    }
  }

  lemma DecimalInjective(a: nat, b: nat)
    requires Decimal(a) == Decimal(b)
    ensures a == b
  {
    NumberOfDecimal(a);
    NumberOfDecimal(b);
  }

  /** Two texts cut at their first `sep` agree on both parts. */
  lemma CutUnique<T>(a: seq<T>, x: seq<T>, b: seq<T>, y: seq<T>, sep: T)
    requires sep !in a && sep !in b
    requires a + [sep] + x == b + [sep] + y
    ensures a == b && x == y
  {
    var s, t := a + [sep] + x, b + [sep] + y;
    assert s[|a|] == sep && t[|b|] == sep;
    assert a == s[..|a|] && b == t[..|b|];
    assert x == s[|a| + 1..] && y == t[|b| + 1..];
  }

  /** `join`: the parts with `sep` between them. */
  function Join(parts: seq<string>, sep: char): string {
    if parts == [] then "" else if |parts| == 1 then parts[0] else parts[0] + [sep] + Join(parts[1..], sep)
  }

  predicate Free(parts: seq<string>, sep: char) { forall p <- parts :: sep !in p }

  /** Joining parts without separators loses nothing. */
  lemma {:induction false} JoinUnique(parts: seq<string>, others: seq<string>, sep: char)
    requires parts != [] && others != [] && Free(parts, sep) && Free(others, sep)
    requires Join(parts, sep) == Join(others, sep)
    ensures parts == others
  {
    var s, t := Join(parts, sep), Join(others, sep);
    assert parts[0] in parts && others[0] in others;
    if |parts| > 1 { assert s[|parts[0]|] == sep; }
    if |others| > 1 { assert t[|others[0]|] == sep; }
    if |parts| > 1 && |others| > 1 {
      CutUnique(parts[0], Join(parts[1..], sep), others[0], Join(others[1..], sep), sep);
      JoinUnique(parts[1..], others[1..], sep);
    }
    assert parts == [parts[0]] + parts[1..] && others == [others[0]] + others[1..];
  }

  /** `char::is_control` */
  predicate IsControl(c: char) { c as int < 0x20 || 0x7f <= c as int < 0xa0 }
}
