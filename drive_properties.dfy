/**
 What the decoder of module Drives guarantees: a successful result is a
 non-empty set of at most 26 letters from 'A' to 'Z', and decoding is a
 bijection between the valid masks and the non-empty sets of drive letters.
 Its inverse, Encode, sets bit L - 'A' for each letter L of a set.
 */
module DriveProperties {
  import opened Drives

  // ---------------------------------------------------------------------------
  // Masks that fit in the low n bits
  // ---------------------------------------------------------------------------

  /** `m` has no bit at position n or above, that is, m < 2^n. */
  predicate Fits(m: bv32, n: nat) {
    if n == 0 then m == 0 else Fits(m >> 1, n - 1)
  }

  /**
   `h` is the mask of bits n..31: bit 0 is clear when n > 0, and shifting it
   right while filling bit 31 gives the mask of bits n - 1..31.
   */
  predicate IsHighMask(h: bv32, n: nat)
    decreases n
  {
    if n == 0 then h == 0xFFFF_FFFF
    else h & 1 == 0 && IsHighMask((h >> 1) | 0x8000_0000, n - 1)
  }

  /** One step of FitsUnderMask, on the bits alone. */
  lemma ShiftedMaskClear(m: bv32, h: bv32)
    requires h & 1 == 0
    ensures ((m >> 1) & ((h >> 1) | 0x8000_0000) == 0) <==> (m & h == 0)
  {
  }

  /** A mask fits in n bits exactly when it has no bit in common with the mask of bits n..31. */
  lemma {:induction false} FitsUnderMask(m: bv32, n: nat, h: bv32)
    requires IsHighMask(h, n)
    ensures Fits(m, n) <==> m & h == 0
  {
    if n == 0 {
      assert h == 0xFFFF_FFFF;
    } else {
      var m1, h1 := m >> 1, (h >> 1) | 0x8000_0000;
      var fits := Fits(m1, n - 1);
      var clear := m1 & h1 == 0;
      assert fits <==> clear by { FitsUnderMask(m1, n - 1, h1); }
      assert clear <==> m & h == 0 by { ShiftedMaskClear(m, h); }
    }
  }

  /** INVALID_DRIVE_LETTER_BITMASK is the mask of bits 26..31. */
  lemma HighMasks()
    ensures IsHighMask(InvalidDriveLetterBitmask, LetterCount)
    ensures IsHighMask(0xFE00_0000, LetterCount - 1)
  {
    assert IsHighMask(0xFFFF_FFE0, 5);
    assert IsHighMask(0xFFFF_FC00, 10);
    assert IsHighMask(0xFFFF_8000, 15);
    assert IsHighMask(0xFFF0_0000, 20);
    assert IsHighMask(0xFE00_0000, 25);
  }

  /** What fits in n bits fits in any wider field. */
  lemma {:induction false} FitsWider(m: bv32, n: nat, k: nat)
    requires Fits(m, n) && n <= k
    ensures Fits(m, k)
  {
    if 0 < n {
      FitsWider(m >> 1, n - 1, k - 1);
    } else if 0 < k {
      assert m >> 1 == 0;
      FitsWider(0, 0, k - 1);
    }
  }

  /** A mask that fits in 25 bits has bit 31 clear. */
  lemma TopBitClear(m: bv32, n: nat)
    requires Fits(m, n) && n < LetterCount
    ensures m & 0x8000_0000 == 0
  {
    FitsWider(m, n, LetterCount - 1);
    HighMasks();
    FitsUnderMask(m, LetterCount - 1, 0xFE00_0000);
  }

  // ---------------------------------------------------------------------------
  // Bits of a mask
  // ---------------------------------------------------------------------------

  /** The low bits of the low bits are a prefix. */
  lemma {:induction false} LowBitsPrefix(m: bv32, n: nat, k: nat)
    requires k <= n
    ensures LowBits(m, n)[..k] == LowBits(m, k)
  {
    if k > 0 {
      LowBitsPrefix(m >> 1, n - 1, k - 1);
      assert LowBits(m, n)[..k] == [m & 1 == 1] + LowBits(m >> 1, n - 1)[..k - 1];
    }
  }

  /** Bit i of the whole mask is bit i of its low n bits. */
  lemma BitInLowBits(m: bv32, n: nat, i: nat)
    requires i < n <= 32
    ensures Bit(m, i) == LowBits(m, n)[i]
  {
    LowBitsPrefix(m, 32, n);
    assert ViewBits(m)[..n][i] == ViewBits(m)[i];
  }

  /** A non-zero mask that fits in n bits has a set bit below n. */
  lemma {:induction false} SomeLowBitSet(m: bv32, n: nat)
    requires m != 0 && Fits(m, n)
    ensures exists i :: 0 <= i < n && LowBits(m, n)[i]
  {
    if m & 1 == 0 {
      assert m >> 1 != 0;
      SomeLowBitSet(m >> 1, n - 1);
      var i :| 0 <= i < n - 1 && LowBits(m >> 1, n - 1)[i];
      assert LowBits(m, n)[i + 1];
    } else {
      assert LowBits(m, n)[0];
    }
  }

  /** The zero mask has no bit set. */
  lemma {:induction false} ZeroHasNoBits(n: nat, i: nat)
    requires i < n
    ensures !LowBits(0, n)[i]
  {
    if i > 0 {
      ZeroHasNoBits(n - 1, i - 1);
    }
  }

  // ---------------------------------------------------------------------------
  // Encoding a set of letters as a mask
  // ---------------------------------------------------------------------------

  /**
   The mask of the letters of `drives` that occur in `letters`, the first
   of `letters` standing for bit 0: bit i is set for each position i with
   letters[i] in drives.
   */
  function EncodeLetters(drives: set<char>, letters: seq<char>): bv32 {
    if letters == [] then 0
    else (if letters[0] in drives then 1 else 0) | (EncodeLetters(drives, letters[1..]) << 1)
  }

  /** The mask of a set of drive letters: bit L - 'A' set for each of its letters L. */
  function Encode(drives: set<char>): bv32 {
    EncodeLetters(drives, DriveLetterRange())
  }

  /** The encoding of n <= 26 letters fits in n bits. */
  lemma {:induction false} EncodeLettersFits(drives: set<char>, letters: seq<char>)
    requires |letters| <= LetterCount
    ensures Fits(EncodeLetters(drives, letters), |letters|)
  {
    if letters != [] {
      var e := EncodeLetters(drives, letters[1..]);
      EncodeLettersFits(drives, letters[1..]);
      TopBitClear(e, |letters| - 1);
      EncodeLettersHigh(drives, letters);
    }
  }

  /** Above bit 0, the encoding of a non-empty sequence is the encoding of its tail. */
  lemma EncodeLettersHigh(drives: set<char>, letters: seq<char>)
    requires letters != []
    requires EncodeLetters(drives, letters[1..]) & 0x8000_0000 == 0
    ensures EncodeLetters(drives, letters) >> 1 == EncodeLetters(drives, letters[1..])
  {
    ShiftInHigh(EncodeLetters(drives, letters[1..]), if letters[0] in drives then 1 else 0);
  }

  /** Bit 0 of the encoding of a non-empty sequence says whether its first letter is in the set. */
  lemma EncodeLettersLow(drives: set<char>, letters: seq<char>)
    requires letters != []
    ensures EncodeLetters(drives, letters) & 1 == 1 <==> letters[0] in drives
  {
    ShiftInLow(EncodeLetters(drives, letters[1..]), letters[0] in drives);
  }

  /** Shifting a mask with bit 31 clear one place left and back loses nothing. */
  lemma ShiftInHigh(e: bv32, b: bv32)
    requires e & 0x8000_0000 == 0 && b <= 1
    ensures (b | (e << 1)) >> 1 == e
  {
  }

  /** A bit put in position 0 of a mask shifted left can be read back. */
  lemma ShiftInLow(e: bv32, c: bool)
    ensures ((if c then 1 else 0) | (e << 1)) & 1 == 1 <==> c
  {
  }

  /** Bit i of the encoding of at most 26 letters says whether letters[i] is in the set. */
  lemma {:induction false} EncodeLettersBits(drives: set<char>, letters: seq<char>, i: nat)
    requires i < |letters| <= LetterCount
    ensures LowBits(EncodeLetters(drives, letters), |letters|)[i] == (letters[i] in drives)
  {
    if i == 0 {
      EncodeLettersLow(drives, letters);
    } else {
      var e := EncodeLetters(drives, letters[1..]);
      assert EncodeLetters(drives, letters) >> 1 == e by {
        EncodeLettersFits(drives, letters[1..]);
        TopBitClear(e, |letters| - 1);
        EncodeLettersHigh(drives, letters);
      }
      EncodeLettersBits(drives, letters[1..], i - 1);
      assert letters[1..][i - 1] == letters[i];
    }
  }

  /** A mask that fits in |letters| bits is the encoding of the letters of its set bits. */
  lemma {:induction false} EncodeLettersOfBits(drives: set<char>, letters: seq<char>, m: bv32)
    requires Fits(m, |letters|)
    requires forall i :: 0 <= i < |letters| ==> (letters[i] in drives) == LowBits(m, |letters|)[i]
    ensures EncodeLetters(drives, letters) == m
  {
    if letters != [] {
      var n := |letters|;
      forall i | 0 <= i < n - 1
        ensures (letters[1..][i] in drives) == LowBits(m >> 1, n - 1)[i]
      {
        assert letters[1..][i] == letters[i + 1];
      }
      EncodeLettersOfBits(drives, letters[1..], m >> 1);
      assert (letters[0] in drives) == (m & 1 == 1);
      assert m == (m & 1) | ((m >> 1) << 1);
    }
  }

  /** A drive letter is in the decoded set exactly when its bit is set. */
  lemma InDriveSet(mask: bv32, i: nat)
    requires i < LetterCount
    ensures DriveLetter(i) in DriveSet(mask) <==> Bit(mask, i)
  {
    if DriveLetter(i) in DriveSet(mask) {
      var j: nat :| j < LetterCount && Bit(mask, j) && DriveLetter(j) == DriveLetter(i);
      assert j == i;
    }
  }

  // ---------------------------------------------------------------------------
  // The bit view of a mask loses nothing
  // ---------------------------------------------------------------------------

  /** The mask whose bit i is bits[i], the first of `bits` standing for bit 0. */
  function BitsValue(bits: seq<bool>): bv32 {
    if bits == [] then 0 else (if bits[0] then 1 else 0) | (BitsValue(bits[1..]) << 1)
  }

  /** A mask is its bit 0 put under the rest of it. */
  lemma SplitLowBit(m: bv32)
    ensures m == (if m & 1 == 1 then 1 else 0) | ((m >> 1) << 1)
  {
  }

  /** Every mask fits in 32 bits. */
  lemma AllMasksFit(m: bv32)
    ensures Fits(m, 32)
  {
    HighMasks();
    assert IsHighMask(0xC000_0000, 30);
    assert IsHighMask(0, 32);
    FitsUnderMask(m, 32, 0);
  }

  /** Bits that agree with the n low bits of a mask that fits in n bits make up that mask. */
  lemma {:induction false} BitsValueOfBits(bits: seq<bool>, m: bv32)
    requires Fits(m, |bits|)
    requires forall i :: 0 <= i < |bits| ==> bits[i] == LowBits(m, |bits|)[i]
    ensures BitsValue(bits) == m
  {
    if bits != [] {
      var n := |bits|;
      forall i | 0 <= i < n - 1
        ensures bits[1..][i] == LowBits(m >> 1, n - 1)[i]
      {
        assert bits[1..][i] == bits[i + 1];
      }
      BitsValueOfBits(bits[1..], m >> 1);
      assert bits[0] == (m & 1 == 1);
      SplitLowBit(m);
    }
  }

  /** `view_bits::<Lsb0>()` loses nothing: its bits, least significant first, make up the mask. */
  lemma ViewBitsRoundTrip(m: bv32)
    ensures BitsValue(ViewBits(m)) == m
  {
    AllMasksFit(m);
    BitsValueOfBits(ViewBits(m), m);
  }

  /** Two masks have the same bit view exactly when they are equal. */
  lemma ViewBitsInjective(m1: bv32, m2: bv32)
    ensures ViewBits(m1) == ViewBits(m2) <==> m1 == m2
  {
    ViewBitsRoundTrip(m1);
    ViewBitsRoundTrip(m2);
  }

  // ---------------------------------------------------------------------------
  // Properties of GetDrives
  // ---------------------------------------------------------------------------

  /** A mask passes the INVALID_DRIVE_LETTER_BITMASK test exactly when it fits in 26 bits. */
  lemma ValidMaskFits(mask: bv32)
    ensures mask & InvalidDriveLetterBitmask == 0 <==> Fits(mask, LetterCount)
  {
    HighMasks();
    FitsUnderMask(mask, LetterCount, InvalidDriveLetterBitmask);
  }

  /**
   A successful decoding is a non-empty set of at most 26 letters, all of
   them between 'A' and 'Z'.
   */
  lemma OkDriveSetBounds(mask: bv32, lastError: u32)
    requires GetDrives(mask, lastError).Ok?
    ensures var drives := GetDrives(mask, lastError).value;
      drives != {} && |drives| <= LetterCount && forall c :: c in drives ==> IsDriveLetter(c)
  {
    var drives := GetDrives(mask, lastError).value;
    ValidMaskFits(mask);
    SomeLowBitSet(mask, LetterCount);
    var i :| 0 <= i < LetterCount && LowBits(mask, LetterCount)[i];
    BitInLowBits(mask, LetterCount, i);
    InDriveSet(mask, i);
    assert DriveLetter(i) in drives;
    var all := set c | c in DriveLetterRange();
    forall c | c in drives ensures c in all {
      var j: nat :| j < LetterCount && Bit(mask, j) && DriveLetter(j) == c;
      assert DriveLetterRange()[j] == c;
    }
    SetOfSeqSize(DriveLetterRange());
    SubsetSize(drives, all);
  }

  /** A subset is no larger than its superset. */
  lemma SubsetSize(a: set<char>, b: set<char>)
    requires a <= b
    ensures |a| <= |b|
  {
    assert b == a + (b - a);
  }

  /** A sequence has at least as many elements as the set of its elements. */
  lemma {:induction false} SetOfSeqSize(s: seq<char>)
    ensures |set c | c in s| <= |s|
  {
    if s != [] {
      SetOfSeqSize(s[1..]);
      assert (set c | c in s) == (set c | c in s[1..]) + {s[0]};
    }
  }

  /** Re-encoding a successfully decoded set gives back the mask. */
  lemma EncodeDecode(mask: bv32, lastError: u32)
    requires GetDrives(mask, lastError).Ok?
    ensures Encode(GetDrives(mask, lastError).value) == mask
  {
    var drives := GetDrives(mask, lastError).value;
    ValidMaskFits(mask);
    forall i | 0 <= i < LetterCount
      ensures (DriveLetterRange()[i] in drives) == LowBits(mask, LetterCount)[i]
    {
      InDriveSet(mask, i);
      BitInLowBits(mask, LetterCount, i);
    }
    EncodeLettersOfBits(drives, DriveLetterRange(), mask);
  }

  /**
   Every non-empty set of drive letters is decoded from its encoding, so
   decoding reaches every such set.
   */
  lemma DecodeEncode(drives: set<char>, lastError: u32)
    requires drives != {} && forall c :: c in drives ==> IsDriveLetter(c)
    ensures GetDrives(Encode(drives), lastError) == Ok(drives)
  {
    var mask := Encode(drives);
    EncodeLettersFits(drives, DriveLetterRange());
    ValidMaskFits(mask);
    forall i | 0 <= i < LetterCount
      ensures Bit(mask, i) == (DriveLetter(i) in drives)
    {
      EncodeLettersBits(drives, DriveLetterRange(), i);
      BitInLowBits(mask, LetterCount, i);
    }
    var c :| c in drives;
    var k := LetterIndex(c);
    assert Bit(mask, k);
    ZeroHasNoBits(32, k);
    assert mask != 0;
    forall d | d in DriveSet(mask) ensures d in drives {
      var j: nat :| j < LetterCount && Bit(mask, j) && DriveLetter(j) == d;
    }
    forall d | d in drives ensures d in DriveSet(mask) {
      InDriveSet(mask, LetterIndex(d));
    }
    assert DriveSet(mask) == drives;
  }

  /** Distinct valid masks decode to distinct sets. */
  lemma DecodeInjective(m1: bv32, m2: bv32, e1: u32, e2: u32)
    requires GetDrives(m1, e1).Ok? && GetDrives(m2, e2).Ok?
    requires GetDrives(m1, e1).value == GetDrives(m2, e2).value
    ensures m1 == m2
  {
    EncodeDecode(m1, e1);
    EncodeDecode(m2, e2);
  }

  /** The only bit of mask 4 is bit 2. */
  lemma BitsOfFour(i: nat)
    requires i < 32
    ensures Bit(4, i) <==> i == 2
  {
    assert LowBits(4, 32) == [false] + LowBits(2, 31);
    assert LowBits(2, 31) == [false] + LowBits(1, 30);
    assert LowBits(1, 30) == [true] + LowBits(0, 29);
    if i > 2 {
      ZeroHasNoBits(29, i - 3);
    }
  }

  /** Bit 2 alone (mask 4) stands for drive C. */
  lemma MaskFourIsDriveC(lastError: u32)
    ensures GetDrives(4, lastError) == Ok({'C'})
  {
    forall c | c in DriveSet(4) ensures c == 'C' {
      var i: nat :| i < LetterCount && Bit(4, i) && DriveLetter(i) == c;
      BitsOfFour(i);
    }
    BitsOfFour(2);
    InDriveSet(4, 2);
    assert DriveSet(4) == {'C'};
  }
}
