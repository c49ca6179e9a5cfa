/** Column names of the creatinine tables, built with Python's f-string formatting of integers. */
module Naming {

  /** The decimal digit character for `d`. */
  function DigitChar(d: nat): char
    requires d < 10
  {
    (48 + d) as char
  }

  /** Decimal text of a natural number, as `str(n)` prints it. */
  function NatToString(n: nat): (s: string)
    ensures 1 <= |s|
    ensures n < 10 <==> |s| == 1
    decreases n
  {
    if n < 10 then [DigitChar(n)] else NatToString(n / 10) + [DigitChar(n % 10)]
  }

  /** Different numbers print differently. */
  lemma {:induction false} NatToStringInjective(a: nat, b: nat)
    requires NatToString(a) == NatToString(b)
    ensures a == b
    decreases a
  {
    if a >= 10 && b >= 10 {
      var sa, sb := NatToString(a / 10), NatToString(b / 10);
      assert NatToString(a) == sa + [DigitChar(a % 10)];
      assert NatToString(b) == sb + [DigitChar(b % 10)];
      assert |sa| == |sb|;
      assert NatToString(a)[|sa|] == DigitChar(a % 10);
      assert NatToString(b)[|sb|] == DigitChar(b % 10);
      assert sa == NatToString(a)[..|sa|] == NatToString(b)[..|sb|] == sb;
      NatToStringInjective(a / 10, b / 10);
    } else if a < 10 && b < 10 {
      assert NatToString(a)[0] == NatToString(b)[0];
    }
  }

  const Prefix: string := "creatinine_"

  /** `f'creatinine_{kind}_{i}'`, the name of the i-th date or result column. */
  function ColumnName(kind: string, i: nat): (name: string)
    ensures |name| == |Prefix| + |kind| + 1 + |NatToString(i)|
    ensures name[..|Prefix|] == Prefix
  {
    Prefix + kind + "_" + NatToString(i)
  }

  /** Two columns of the same kind have the same name only when they have the same index. */
  lemma ColumnNameInjective(kind: string, i: nat, j: nat)
    requires ColumnName(kind, i) == ColumnName(kind, j)
    ensures i == j
  {
    var n := |Prefix| + |kind| + 1;
    assert NatToString(i) == ColumnName(kind, i)[n..];
    assert NatToString(j) == ColumnName(kind, j)[n..];
    NatToStringInjective(i, j);
  }

  /** A date column is never named like a result column. */
  lemma DateIsNotResult(i: nat, j: nat)
    ensures ColumnName("date", i) != ColumnName("result", j)
  {
    assert ColumnName("date", i)[11] == 'd';
    assert ColumnName("result", j)[11] == 'r';
  }
}
