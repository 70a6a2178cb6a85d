/** Options, octets and big-endian integers: the vocabulary every wire-level module shares. */
module Bytes {

  datatype Option<+T> = None | Some(value: T)

  type byte = x: int | 0 <= x < 256

  /** `256^n`: the number of values an n-byte unsigned integer can take. */
  function Span(n: nat): (m: nat)
    ensures m >= 1
  {
    if n == 0 then 1 else 256 * Span(n - 1)
  }

  lemma SpanValues()
    ensures Span(1) == 0x100
    ensures Span(2) == 0x1_0000
    ensures Span(4) == 0x1_0000_0000
    ensures Span(8) == 0x1_0000_0000_0000_0000
  {
    assert Span(2) == 256 * Span(1);
    assert Span(4) == 256 * Span(3) && Span(3) == 256 * Span(2);
    assert Span(8) == 256 * Span(7) && Span(7) == 256 * Span(6);
    assert Span(6) == 256 * Span(5) && Span(5) == 256 * Span(4);
  }

  /** The n-byte big-endian image of `v`; an out-of-range `v` is cut to its low n bytes. */
  function BigEndian(v: nat, n: nat): (s: seq<byte>)
    ensures |s| == n
  {
    if n == 0 then [] else BigEndian(v / 256, n - 1) + [v % 256]
  }

  function FromBigEndian(s: seq<byte>): (v: nat)
    ensures v < Span(|s|)
  {
    if s == [] then 0 else 256 * FromBigEndian(s[..|s| - 1]) + s[|s| - 1]
  }

  lemma BigEndianOfNothing()
    ensures FromBigEndian([]) == 0
  {
  }

  /** Reading back a big-endian image gives the value modulo `256^n`. */
  lemma {:induction false} BigEndianRoundTrip(v: nat, n: nat)
    ensures FromBigEndian(BigEndian(v, n)) == v % Span(n)
    ensures v < Span(n) ==> FromBigEndian(BigEndian(v, n)) == v
  {
    if n > 0 {
      hide BigEndian, FromBigEndian, Span;
      BigEndianRoundTrip(v / 256, n - 1);
      BigEndianStep(v, n);
      LowDigits(v, Span(n - 1));
    }
    SmallRemainder(v, Span(n));
  }

  lemma BigEndianStep(v: nat, n: nat)
    requires n > 0
    ensures FromBigEndian(BigEndian(v, n)) == 256 * FromBigEndian(BigEndian(v / 256, n - 1)) + v % 256
    ensures Span(n) == 256 * Span(n - 1)
  {
    var s := BigEndian(v, n);
    assert s[..n - 1] == BigEndian(v / 256, n - 1);
  }

  lemma SmallRemainder(v: nat, m: nat)
    requires m > 0
    ensures v < m ==> v % m == v
  {
  }

  lemma LowDigits(v: nat, m: nat)
    requires m > 0
    ensures v % (256 * m) == 256 * (v / 256 % m) + v % 256
  {
    var q, r := v / 256 / m, v / 256 % m;
    assert v / 256 == q * m + r;
    assert v == q * (256 * m) + (256 * r + v % 256);
    RemainderIs(v, 256 * m, q, 256 * r + v % 256);
  }

  /** The most significant byte comes first. */
  lemma {:induction false} BigEndianDigit(v: nat, n: nat, i: nat)
    requires i < n
    ensures BigEndian(v, n)[i] == v / Span(n - 1 - i) % 256
  {
    if i < n - 1 {
      hide Span;
      BigEndianDigit(v / 256, n - 1, i);
      NestedDivision(v, Span(n - 2 - i));
      assert Span(n - 1 - i) == 256 * Span(n - 2 - i) by { SpanStep(n - 1 - i); }
    }
  }

  lemma BigEndianShort(v: nat)
    ensures BigEndian(v, 1) == [v % 256] && BigEndian(v, 2) == [v / 0x100 % 256, v % 256]
  {
    BigEndianDigits(v);
    hide BigEndian;
  }

  lemma BigEndianDigits(v: nat)
    ensures BigEndian(v, 1)[0] == v % 256
    ensures BigEndian(v, 2)[0] == v / 0x100 % 256 && BigEndian(v, 2)[1] == v % 256
  {
    hide BigEndian;
    SpanValues();
    BigEndianDigit(v, 1, 0);
    BigEndianDigit(v, 2, 0);
    BigEndianDigit(v, 2, 1);
  }

  lemma BigEndianFour(v: nat)
    ensures BigEndian(v, 4) == [v / 0x100_0000 % 256, v / 0x1_0000 % 256, v / 0x100 % 256, v % 256]
  {
    hide BigEndian;
    SpanValues();
    BigEndianDigit(v, 4, 0);
    BigEndianDigit(v, 4, 1);
    BigEndianDigit(v, 4, 2);
    BigEndianDigit(v, 4, 3);
  }

  lemma BigEndianEight(v: nat)
    ensures BigEndian(v, 8) == BigEndian(v / 0x1_0000_0000, 4) + BigEndian(v, 4)
  {
    hide BigEndian, Span;
    SpanValues();
    forall i | 0 <= i < 8
      ensures BigEndian(v, 8)[i] == (BigEndian(v / 0x1_0000_0000, 4) + BigEndian(v, 4))[i]
    {
      BigEndianDigit(v, 8, i);
      if i < 4 {
        BigEndianDigit(v / 0x1_0000_0000, 4, i);
        HighDigit(v, 3 - i);
      } else {
        BigEndianDigit(v, 4, i - 4);
      }
    }
  }

  lemma HighDigit(v: nat, k: nat)
    requires k < 4
    ensures v / 0x1_0000_0000 / Span(k) == v / Span(k + 4)
  {
    SpanValues();
  }

  lemma SpanStep(n: nat)
    requires n > 0
    ensures Span(n) == 256 * Span(n - 1)
  {
  }

  lemma NestedDivision(v: nat, m: nat)
    requires m > 0
    ensures v / 256 / m == v / (256 * m)
  {
    var q, r := v / 256 / m, v / 256 % m;
    assert v / 256 == q * m + r;
    assert v == q * (256 * m) + (256 * r + v % 256);
    RemainderIs(v, 256 * m, q, 256 * r + v % 256);
  }

  lemma RemainderIs(v: nat, m: nat, q: nat, r: nat)
    requires v == q * m + r && r < m
    ensures v % m == r && v / m == q
  {
    var q' := v / m;
    assert v == q' * m + v % m;
    MultiplesApart(q, q', m);
    MultiplesApart(q', q, m);
  }

  lemma {:induction false} MultiplesApart(a: nat, b: nat, m: nat)
    ensures a < b ==> a * m + m <= b * m
  {
    if a + 1 < b {
      MultiplesApart(a, b - 1, m);
    }
  }

  /** Conversely every byte string is the big-endian image of the integer it spells. */
  lemma {:induction false} FromBigEndianRoundTrip(s: seq<byte>)
    ensures BigEndian(FromBigEndian(s), |s|) == s
  {
    if s != [] {
      var init, last := s[..|s| - 1], s[|s| - 1];
      FromBigEndianRoundTrip(init);
      assert FromBigEndian(s) == 256 * FromBigEndian(init) + last;
      LastDigit(FromBigEndian(init), last);
      assert s == init + [last];
    }
  }

  lemma LastDigit(w: nat, b: byte)
    ensures (256 * w + b) / 256 == w && (256 * w + b) % 256 == b
  {
  }

  /** The value of an n-byte two's-complement integer with unsigned reading `v`. */
  function Signed(v: nat, n: nat): (r: int)
    requires v < Span(n)
  {
    if 2 * v < Span(n) then v else v - Span(n)
  }
}
