/** Numbers as bytes, lowest first. */
module Numerals {
  import opened Arithmetic

  type Byte = b: nat | b < 0x100

  function Pow256(n: nat): (p: nat)
    ensures p > 0
  {
    if n == 0 then 1 else 256 * Pow256(n - 1)
  }

  function LittleEndian(bytes: seq<Byte>): nat {
    if bytes == [] then 0 else bytes[0] + 256 * LittleEndian(bytes[1..])
  }

  function BytesOf(value: nat, size: nat): (b: seq<Byte>)
    ensures |b| == size
  {
    if size == 0 then [] else [value % 256] + BytesOf(value / 256, size - 1)
  }

  lemma {:induction false} LittleEndianBound(bytes: seq<Byte>)
    ensures LittleEndian(bytes) < Pow256(|bytes|)
    decreases |bytes|
  {
    if bytes != [] {
      LittleEndianBound(bytes[1..]);
    }
  }

  lemma {:induction false} BytesRoundTrip(value: nat, size: nat)
    ensures LittleEndian(BytesOf(value, size)) == value % Pow256(size)
    decreases size
  {
    if size != 0 {
      BytesRoundTrip(value / 256, size - 1);
      var p := Pow256(size - 1);
      assert BytesOf(value, size)[1..] == BytesOf(value / 256, size - 1);
      ModSplit(value, p);
    }
  }

  lemma ModSplit(value: nat, p: nat)
    requires p > 0
    ensures value % (256 * p) == value % 256 + 256 * (value / 256 % p)
  {
    var q := value / 256;
    assert value == 256 * q + value % 256;
    assert q == p * (q / p) + q % p;
    var r := value % 256 + 256 * (q % p);
    assert value == (256 * p) * (q / p) + r by {
      assert 256 * (p * (q / p)) == (256 * p) * (q / p);
    }
    assert q % p <= p - 1;
    assert 0 <= r < 256 * p;
    DivUnique(value, 256 * p, q / p, r);
  }

  // ---------------------------------------------------------------- single bytes

  /** The byte of a number at a place. */
  function Digit(value: nat, k: nat): Byte {
    value / Pow256(k) % 256
  }

  lemma DigitNext(value: nat, k: nat)
    requires k > 0
    ensures Digit(value, k) == Digit(value / 256, k - 1)
  {
    DivDiv(value, 256, Pow256(k - 1));
  }

  lemma {:induction false} LittleEndianAt(bytes: seq<Byte>, k: nat)
    requires k < |bytes|
    ensures Digit(LittleEndian(bytes), k) == bytes[k]
    decreases |bytes|
  {
    var v := LittleEndian(bytes);
    assert v / 256 == LittleEndian(bytes[1..]) && v % 256 == bytes[0];
    if k == 0 {
      assert Pow256(0) == 1;
    } else {
      DigitNext(v, k);
      LittleEndianAt(bytes[1..], k - 1);
    }
  }

  lemma {:induction false} BytesOfAt(value: nat, size: nat, k: nat)
    requires k < size
    ensures BytesOf(value, size)[k] == Digit(value, k)
    decreases size
  {
    if k == 0 {
      assert Pow256(0) == 1;
    } else {
      DigitNext(value, k);
      BytesOfAt(value / 256, size - 1, k - 1);
    }
  }

  /** The bytes below `n` determine a number below `256^n`. */
  lemma {:induction false} BytesDetermine(x: nat, y: nat, n: nat)
    requires x < Pow256(n) && y < Pow256(n) && forall k | 0 <= k < n :: Digit(x, k) == Digit(y, k)
    ensures x == y
    decreases n
  {
    if n > 0 {
      assert Digit(x, 0) == Digit(y, 0);
      assert Pow256(0) == 1;
      forall k | 0 <= k < n - 1 ensures Digit(x / 256, k) == Digit(y / 256, k) {
        DigitNext(x, k + 1);
        DigitNext(y, k + 1);
        assert Digit(x, k + 1) == Digit(y, k + 1);
      }
      BytesDetermine(x / 256, y / 256, n - 1);
    }
  }
}
