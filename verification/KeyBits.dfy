/** The set of pressed keys, held in two words of sixty-four bits. */
module KeyBits {
  const WORD_BITS: nat := 64
  const KEY_COUNT: nat := 128

  type KeyWords = k: seq<bv64> | |k| == 2 witness [0, 0]

  const NO_KEYS: KeyWords := [0, 0]

  /** The mask of one of the lowest sixteen bits. */
  function LowBit(r: nat): bv64 {
    match r
    case 0 => 0x0001 case 1 => 0x0002 case 2 => 0x0004 case 3 => 0x0008
    case 4 => 0x0010 case 5 => 0x0020 case 6 => 0x0040 case 7 => 0x0080
    case 8 => 0x0100 case 9 => 0x0200 case 10 => 0x0400 case 11 => 0x0800
    case 12 => 0x1000 case 13 => 0x2000 case 14 => 0x4000 case 15 => 0x8000
    case _ => 0
  }

  /** The mask of one bit (`1 << r`). */
  function Bit(r: nat): bv64 {
    if r < 16 then LowBit(r) else Bit(r - 16) << 16
  }

  predicate OneBit(b: bv64) {
    b != 0 && b & (b - 1) == 0
  }

  predicate Common(word: bv64, b: bv64) {
    word & b != 0
  }

  lemma LowBitIsOne(r: nat)
    requires r < 16
    ensures OneBit(LowBit(r)) && LowBit(r) <= 0xFFFF
  {
  }

  lemma LowBitInjective(r: nat, k: nat)
    requires r < 16 && k < 16 && LowBit(r) == LowBit(k)
    ensures r == k
  {
  }

  lemma Shifted(b: bv64)
    requires OneBit(b) && b <= 0xFFFF_FFFF_FFFF
    ensures OneBit(b << 16) && (b << 16) & 0xFFFF == 0
    ensures b <= 0xFFFF ==> b << 16 <= 0xFFFF_FFFF
    ensures b <= 0xFFFF_FFFF ==> b << 16 <= 0xFFFF_FFFF_FFFF
  {
  }

  lemma ShiftInjective(b: bv64, c: bv64)
    requires b <= 0xFFFF_FFFF_FFFF && c <= 0xFFFF_FFFF_FFFF && b << 16 == c << 16
    ensures b == c
  {
  }

  lemma LowApart(b: bv64, c: bv64)
    requires b != 0 && b <= 0xFFFF && c & 0xFFFF == 0
    ensures b != c
  {
  }

  /** Bits of a word: each mask has one, in the sixteen its number says. */
  lemma {:induction false} BitIsOne(r: nat)
    requires r < WORD_BITS
    ensures OneBit(Bit(r)) && (r < 16 ==> Bit(r) <= 0xFFFF) && (r >= 16 ==> Bit(r) & 0xFFFF == 0)
    ensures r < 32 ==> Bit(r) <= 0xFFFF_FFFF
    ensures r < 48 ==> Bit(r) <= 0xFFFF_FFFF_FFFF
  {
    hide OneBit, LowBit;
    if r < 16 {
      LowBitIsOne(r);
    } else {
      BitIsOne(r - 16);
      Shifted(Bit(r - 16));
    }
  }

  lemma {:induction false} BitInjective(r: nat, k: nat)
    requires r < WORD_BITS && k < WORD_BITS && Bit(r) == Bit(k)
    ensures r == k
  {
    hide LowBit;
    BitIsOne(r);
    BitIsOne(k);
    if r < 16 && k < 16 {
      LowBitInjective(r, k);
    } else if r < 16 {
      LowApart(Bit(r), Bit(k));
    } else if k < 16 {
      LowApart(Bit(k), Bit(r));
    } else {
      BitIsOne(r - 16);
      BitIsOne(k - 16);
      ShiftInjective(Bit(r - 16), Bit(k - 16));
      BitInjective(r - 16, k - 16);
    }
  }

  /** Two masks of one bit share it exactly when they are equal. */
  lemma OneBitMeets(b: bv64, c: bv64)
    requires OneBit(b) && OneBit(c)
    ensures b != 0 && (Common(b, c) <==> b == c)
  {
  }

  function SetIn(word: bv64, b: bv64, pressed: bool): bv64 {
    if pressed then word | b else word & !b
  }

  lemma SetApart(word: bv64, b: bv64, c: bv64, pressed: bool)
    requires !Common(b, c)
    ensures Common(SetIn(word, b, pressed), c) <==> Common(word, c)
  {
  }

  lemma SetSame(word: bv64, b: bv64, pressed: bool)
    requires b != 0
    ensures Common(SetIn(word, b, pressed), b) <==> pressed
  {
  }

  lemma SetInMeans(word: bv64, b: bv64, c: bv64, pressed: bool)
    requires OneBit(b) && OneBit(c)
    ensures Common(SetIn(word, b, pressed), c) <==> if b == c then pressed else Common(word, c)
  {
    hide OneBit, Common, SetIn;
    OneBitMeets(b, c);
    if b == c {
      SetSame(word, b, pressed);
    } else {
      SetApart(word, b, c, pressed);
    }
  }

  predicate Holds(words: KeyWords, key: nat) {
    var index := key / WORD_BITS;
    index < 2 && Common(words[index], Bit(key % WORD_BITS))
  }

  /** Sets or clears a key's bit; a key past the last word is ignored. */
  function Set(words: KeyWords, key: nat, pressed: bool): KeyWords {
    var index := key / WORD_BITS;
    if index < 2 then words[index := SetIn(words[index], Bit(key % WORD_BITS), pressed)] else words
  }

  function Keys(words: KeyWords): set<nat> {
    set key: nat | key < KEY_COUNT && Holds(words, key)
  }

  /** Setting a bit adds or removes exactly that key. */
  lemma SetKeys(words: KeyWords, key: nat, pressed: bool)
    requires key < KEY_COUNT
    ensures Keys(Set(words, key, pressed)) == if pressed then Keys(words) + {key} else Keys(words) - {key}
  {
    hide Bit, OneBit, Common, SetIn;
    forall j: nat | j < KEY_COUNT
      ensures Holds(Set(words, key, pressed), j) <==> if j == key then pressed else Holds(words, j)
    {
      var b, c := key % WORD_BITS, j % WORD_BITS;
      BitIsOne(b);
      BitIsOne(c);
      SetInMeans(words[key / WORD_BITS], Bit(b), Bit(c), pressed);
      if Bit(b) == Bit(c) { BitInjective(b, c); }
    }
  }

  lemma NothingHeld()
    ensures Keys(NO_KEYS) == {}
  {
    hide Bit;
    forall j: nat | j < KEY_COUNT ensures !Holds(NO_KEYS, j) {
      NoBits(Bit(j % WORD_BITS));
    }
  }

  lemma NoBits(b: bv64)
    ensures !Common(0, b)
  {
  }
}
