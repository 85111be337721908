/** Strings as the Go code uses them: decimal numerals and the byte-wise order of
    sort.Strings. */
module Text {

  datatype Option<+T> = None | Some(value: T)

  // ---------------------------------------------------------------- numerals

  predicate IsDigit(c: char) { '0' <= c <= '9' }

  predicate AllDigits(s: string) { forall i | 0 <= i < |s| :: IsDigit(s[i]) }

  function DigitValue(c: char): (d: nat)
    requires IsDigit(c)
    ensures d < 10
  {
    c as int - '0' as int
  }

  /** strconv.Itoa on a natural number. */
  function Decimal(n: nat): (s: string)
    ensures |s| > 0 && AllDigits(s)
    ensures n > 0 ==> s[0] != '0'
    ensures NumeralValue(s) == n
  {
    var last := '0' + (n % 10) as char;
    if n < 10 then
      assert [last][..0] == [];
      [last]
    else
      var s := Decimal(n / 10) + [last];
      assert s[..|s| - 1] == Decimal(n / 10);
      s
  }

  /** strconv.Itoa on an integer. */
  function Itoa(n: int): string {
    if n < 0 then "-" + Decimal(-n) else Decimal(n)
  }

  /** The number a digit string denotes. */
  function NumeralValue(s: string): nat
    requires AllDigits(s)
  {
    if s == "" then 0 else NumeralValue(s[..|s| - 1]) * 10 + DigitValue(s[|s| - 1])
  }

  /** A numeral as Itoa writes it: no leading zero. */
  predicate IsNumeral(s: string) { s != "" && AllDigits(s) && (|s| == 1 || s[0] != '0') }

  lemma {:induction false} NumeralIsPositive(s: string)
    requires s != "" && AllDigits(s) && s[0] != '0'
    ensures NumeralValue(s) > 0
  {
    if |s| > 1 { NumeralIsPositive(s[..|s| - 1]); }
  }

  /** Decimal writes the only numeral of a number. */
  lemma {:induction false} NumeralIsDecimal(s: string)
    requires IsNumeral(s)
    ensures Decimal(NumeralValue(s)) == s
  {
    var front, last := s[..|s| - 1], s[|s| - 1];
    assert s == front + [last];
    if front == "" {
      assert NumeralValue(s) == DigitValue(last);
    } else {
      NumeralIsPositive(front);
      NumeralIsDecimal(front);
      assert NumeralValue(s) / 10 == NumeralValue(front) && NumeralValue(s) % 10 == DigitValue(last);
    }
  }

  /** The text is the decimal numeral of an integer. */
  predicate Denotes(text: string, n: int) {
    if n >= 0 then IsNumeral(text) && NumeralValue(text) == n
    else |text| > 1 && text[0] == '-' && IsNumeral(text[1..]) && NumeralValue(text[1..]) == -n
  }

  lemma {:induction false} DecimalIsNumeral(n: nat)
    ensures IsNumeral(Decimal(n))
  {
  }

  lemma {:induction false} ItoaDenotes(text: string, n: int)
    ensures text == Itoa(n) <==> Denotes(text, n)
  {
    DecimalIsNumeral(if n < 0 then -n else n);
    if n < 0 {
      assert Itoa(n)[1..] == Decimal(-n);
      if Denotes(text, n) {
        NumeralIsDecimal(text[1..]);
        assert text == [text[0]] + text[1..];
      }
    } else if Denotes(text, n) {
      NumeralIsDecimal(text);
    }
  }

  // ------------------------------------------------------------ string order

  /** The order sort.Strings uses. */
  predicate Before(a: string, b: string) {
    a == "" || (b != "" && (a[0] < b[0] || (a[0] == b[0] && Before(a[1..], b[1..]))))
  }

  lemma {:induction false} BeforeIsTotal(a: string, b: string)
    ensures Before(a, b) || Before(b, a)
    ensures Before(a, b) && Before(b, a) ==> a == b
  {
    if a != "" && b != "" && a[0] == b[0] {
      BeforeIsTotal(a[1..], b[1..]);
      assert a == [a[0]] + a[1..] && b == [b[0]] + b[1..];
    }
  }

  lemma {:induction false} BeforeIsTransitive(a: string, b: string, c: string)
    requires Before(a, b) && Before(b, c)
    ensures Before(a, c)
  {
    if a != "" && b != "" && c != "" && a[0] == b[0] == c[0] {
      BeforeIsTransitive(a[1..], b[1..], c[1..]);
    }
  }

  predicate IsFirst(k: string, keys: set<string>) {
    k in keys && forall j | j in keys :: Before(k, j)
  }

  lemma {:induction false} FirstExists(keys: set<string>)
    requires keys != {}
    ensures exists k :: IsFirst(k, keys)
  {
    var x :| x in keys;
    BeforeIsTotal(x, x);
    if keys == {x} {
      assert IsFirst(x, keys);
    } else {
      var rest := keys - {x};
      FirstExists(rest);
      var y :| IsFirst(y, rest);
      BeforeIsTotal(x, y);
      if Before(x, y) {
        forall j | j in keys ensures Before(x, j) {
          if j != x { BeforeIsTransitive(x, y, j); }
        }
        assert IsFirst(x, keys);
      } else {
        assert IsFirst(y, keys);
      }
    }
  }

  function First(keys: set<string>): (k: string)
    requires keys != {}
    ensures IsFirst(k, keys)
  {
    FirstExists(keys);
    assert forall a, b | IsFirst(a, keys) && IsFirst(b, keys) :: a == b by {
      forall a, b | IsFirst(a, keys) && IsFirst(b, keys) ensures a == b {
        BeforeIsTotal(a, b);
      }
    }
    var k :| IsFirst(k, keys);
    k
  }

  /** The keys of a Go map after sort.Strings. */
  function Sorted(keys: set<string>): (ks: seq<string>)
    ensures forall k :: k in ks <==> k in keys
    ensures forall i, j | 0 <= i < j < |ks| :: ks[i] != ks[j]
  {
    if keys == {} then []
    else
      var k := First(keys);
      [k] + Sorted(keys - {k})
  }
}
