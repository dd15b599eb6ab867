/**
 * Hash keys. A key held in a Ruby Hash is a String (the text form), a Symbol
 * (the token form) or some other object; the model keeps integers as the
 * representative of "other" keys, since those are the only ones the
 * conversions below act on.
 */
module Keys {
  import opened Wrappers

  datatype Key = Str(s: string) | Sym(s: string) | Int(n: int)

  /** The other form of a String or Symbol key (`to_sym` / `"#{key}"`); integers have none. */
  function Alternate(k: Key): (r: Option<Key>)
    ensures r.Some? <==> !k.Int?
    ensures r.Some? ==> r.value != k && !r.value.Int? && r.value.s == k.s
  {
    match k
    case Str(s) => Some(Sym(s))
    case Sym(s) => Some(Str(s))
    case Int(_) => None
  }

  /** The two forms of a String or Symbol are each other's alternate. */
  lemma AlternateInvolution(k: Key)
    ensures Alternate(k).Some? ==> Alternate(Alternate(k).value) == Some(k)
  {
  }

  /** True when a and b name the same entry under String/Symbol indifference. */
  predicate SameIndifferently(a: Key, b: Key) {
    a == b || Alternate(a) == Some(b)
  }

  /** Ruby's `to_s` on a key: the text of a String or Symbol, the decimal digits of an Integer. */
  function ToS(k: Key): (r: string)
    ensures !k.Int? ==> r == k.s
    ensures k.Int? && 0 <= k.n < 10 ==> r == [DigitChar(k.n)]
    ensures |r| > 0 || !k.Int?
  {
    match k
    case Str(s) => s
    case Sym(s) => s
    case Int(n) => Decimal(n)
  }

  function DigitChar(d: nat): char
    requires d < 10
  {
    "0123456789"[d]
  }

  /** Integer#to_s: an optional minus sign followed by the decimal digits. */
  function Decimal(n: int): (r: string)
    ensures |r| > 0
    ensures n >= 0 ==> forall i :: 0 <= i < |r| ==> '0' <= r[i] <= '9'
    ensures n < 0 ==> r[0] == '-'
  {
    if n < 0 then "-" + Digits(-n) else Digits(n)
  }

  function Digits(n: nat): (r: string)
    ensures |r| > 0
    ensures forall i :: 0 <= i < |r| ==> '0' <= r[i] <= '9'
  {
    if n < 10 then [DigitChar(n)] else Digits(n / 10) + [DigitChar(n % 10)]
  }

  /** A number below ten is one digit, and a larger one is its leading digits followed by its last digit. */
  lemma DigitsStep(q: nat, d: nat)
    requires d < 10
    ensures |Digits(d)| == 1
    ensures q > 0 ==> Digits(10 * q + d) == Digits(q) + [DigitChar(d)]
  {
    if q > 0 {
      assert (10 * q + d) / 10 == q && (10 * q + d) % 10 == d;
    }
  }

  /** Digits of two different numbers differ: the decimal text names the number. */
  lemma {:induction false} DigitsInjective(a: nat, b: nat)
    requires Digits(a) == Digits(b)
    ensures a == b
    decreases a
  {
    if a < 10 && b < 10 {
      assert "0123456789"[a] == Digits(a)[0] == Digits(b)[0] == "0123456789"[b];
    } else if a >= 10 && b >= 10 {
      var n := |Digits(a)|;
      assert Digits(a)[n - 1] == DigitChar(a % 10) && Digits(b)[n - 1] == DigitChar(b % 10);
      assert "0123456789"[a % 10] == "0123456789"[b % 10];
      assert Digits(a / 10) == Digits(a)[..n - 1] == Digits(b)[..n - 1] == Digits(b / 10);
      DigitsInjective(a / 10, b / 10);
    }
  }

  /** Integer#to_s is one-to-one: distinct Integers have distinct texts. */
  lemma DecimalInjective(a: int, b: int)
    requires Decimal(a) == Decimal(b)
    ensures a == b
  {
    if a < 0 && b < 0 {
      assert Digits(-a) == Decimal(a)[1..] == Decimal(b)[1..] == Digits(-b);
      DigitsInjective(-a, -b);
    } else if a >= 0 && b >= 0 {
      DigitsInjective(a, b);
    }
  }
}
