/** Numbers in decimal. */
module Numbers {

  function Digits(n: nat): string {
    if n < 10 then [n as char + '0'] else Digits(n / 10) + [(n % 10) as char + '0']
  }

  function Itoa(n: int): string {
    if n < 0 then "-" + Digits(-n) else Digits(n)
  }

  function Value(s: string): nat
    requires forall i :: 0 <= i < |s| ==> '0' <= s[i] <= '9'
  {
    if s == "" then 0 else Value(s[..|s| - 1]) * 10 + (s[|s| - 1] - '0') as nat
  }

  lemma {:induction false} DigitsValue(n: nat)
    ensures Digits(n) != ""
    ensures forall i :: 0 <= i < |Digits(n)| ==> '0' <= Digits(n)[i] <= '9'
    ensures Value(Digits(n)) == n
  {
    if n >= 10 {
      DigitsValue(n / 10);
      assert Digits(n)[..|Digits(n)| - 1] == Digits(n / 10);
    } else {
      assert Digits(n)[..0] == "";
    }
  }

  lemma ItoaInjective(a: int, b: int)
    requires Itoa(a) == Itoa(b)
    ensures a == b
  {
    DigitsValue(if a < 0 then -a else a);
    DigitsValue(if b < 0 then -b else b);
    assert (Itoa(a)[0] == '-' <==> a < 0) && (Itoa(b)[0] == '-' <==> b < 0);
    if a < 0 {
      assert Itoa(a)[1..] == Digits(-a) && Itoa(b)[1..] == Digits(-b);
    }
  }
}
