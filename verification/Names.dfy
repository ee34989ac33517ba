/** Names made up from a table, an arity and a counter. */
module Names {

  const DIGITS: string := "0123456789"

  /** A number in decimal notation. */
  function Decimal(n: nat): (s: string)
    ensures s != [] && forall c | c in s :: c in DIGITS
  {
    if n < 10 then [DIGITS[n]] else Decimal(n / 10) + [DIGITS[n % 10]]
  }

  function DigitOf(c: char): nat {
    if '0' <= c <= '9' then c as int - '0' as int else 0
  }

  /** The number that digits denote. */
  function NumberOf(s: string): nat {
    if s == [] then 0 else 10 * NumberOf(s[..|s| - 1]) + DigitOf(s[|s| - 1])
  }

  /** The digits denote the number, and there is no needless zero in front. */
  ghost predicate IsNumeral(s: string, n: nat) {
    && s != [] && (forall c | c in s :: '0' <= c <= '9') && NumberOf(s) == n
    && (|s| > 1 ==> s[0] != '0')
  }

  lemma {:induction false} DecimalIsNumeral(n: nat)
    ensures IsNumeral(Decimal(n), n)
    decreases n
  {
    var s := Decimal(n);
    assert forall d | 0 <= d < 10 :: '0' <= DIGITS[d] <= '9' && DIGITS[d] as int - '0' as int == d;
    if n < 10 {
      assert s[..0] == [] && NumberOf(s[..0]) == 0;
    } else {
      DecimalIsNumeral(n / 10);
      assert s[..|s| - 1] == Decimal(n / 10) && s[|s| - 1] == DIGITS[n % 10];
      forall c | c in s
        ensures '0' <= c <= '9'
      {
        assert c in Decimal(n / 10) || c == DIGITS[n % 10];
      }
      if |Decimal(n / 10)| == 1 {
        assert NumberOf(Decimal(n / 10)[..0]) == 0;
        assert n / 10 != 0;
      }
      assert s[0] == Decimal(n / 10)[0];
    }
  }

  lemma {:induction false} DecimalIsInjective(m: nat, n: nat)
    requires Decimal(m) == Decimal(n)
    ensures m == n
    decreases m
  {
    var s, t := Decimal(m), Decimal(n);
    assert s[|s| - 1] == DIGITS[m % 10] && t[|t| - 1] == DIGITS[n % 10];
    assert |s| == 1 <==> m < 10;
    assert |t| == 1 <==> n < 10;
    if m >= 10 {
      assert s[..|s| - 1] == Decimal(m / 10) && t[..|t| - 1] == Decimal(n / 10);
      DecimalIsInjective(m / 10, n / 10);
    }
  }

  function NewTableName(table: string, arity: nat, index: nat): string {
    "___" + table + "_" + Decimal(arity) + "_" + Decimal(index)
  }

  /** Three underscores, the table, its arity and the counter, with an underscore before each number. */
  lemma NewTableNameIs(table: string, arity: nat, index: nat)
    ensures exists a, i :: IsNumeral(a, arity) && IsNumeral(i, index)
                           && NewTableName(table, arity, index) == "___" + table + "_" + a + "_" + i
  {
    DecimalIsNumeral(arity);
    DecimalIsNumeral(index);
  }

  predicate InNamespace(table: string) {
    "___" <= table
  }

  lemma LongerEndHasUnderscore(a: string, d: string, a': string, d': string)
    requires a + "_" + d == a' + "_" + d' && |d| < |d'|
    ensures '_' in d'
  {
    var s := a + "_" + d;
    assert s[|a|] == d'[|d'| - 1 - |d|];
  }

  lemma SplitAtLastUnderscore(a: string, d: string, a': string, d': string)
    requires a + "_" + d == a' + "_" + d' && '_' !in d && '_' !in d'
    ensures a == a' && d == d'
  {
    if |d| < |d'| {
      LongerEndHasUnderscore(a, d, a', d');
    } else if |d'| < |d| {
      LongerEndHasUnderscore(a', d', a, d);
    } else {
      var s := a + "_" + d;
      assert a == s[..|a|] == a' && d == s[|a| + 1..] == d';
    }
  }

  /** Different tables, arities or counters have different generated names, outside the users' names. */
  lemma NewTableNameIsInjective(table: string, arity: nat, index: nat, table': string, arity': nat, index': nat)
    requires NewTableName(table, arity, index) == NewTableName(table', arity', index')
    ensures table == table' && arity == arity' && index == index'
  {
    var a, a' := "___" + table, "___" + table';
    SplitAtLastUnderscore(a + "_" + Decimal(arity), Decimal(index), a' + "_" + Decimal(arity'), Decimal(index'));
    SplitAtLastUnderscore(a, Decimal(arity), a', Decimal(arity'));
    assert table == a[3..] && table' == a'[3..];
    DecimalIsInjective(arity, arity');
    DecimalIsInjective(index, index');
  }

  lemma NewTableNameIsInNamespace(table: string, arity: nat, index: nat)
    ensures InNamespace(NewTableName(table, arity, index))
  {}
}
