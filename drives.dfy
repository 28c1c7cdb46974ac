/**
 The drive enumerator of src/lib.rs: decoding the logical-drive bitmask that
 the Win32 function GetLogicalDrives returns into a set of drive letters.

 The two operating-system calls (GetLogicalDrives and GetLastError) are not
 made here: the raw mask and the last-error code are parameters.
 */
module Drives {

  /** An unsigned 32-bit integer (the source's `u32`, used for error codes). */
  type u32 = x: int | 0 <= x < 0x1_0000_0000

  /** The `Result` of the source: an `Ok` value or an `Err` value. */
  datatype Result<+T, +E> = Ok(value: T) | Err(error: E)

  /** The two ways in which enumerating the drives can fail. */
  datatype GetLogicalDrivesError =
    | TooManyDrivesError   // a bit with no drive letter (26..31) is set
    | ApiError(code: u32)  // the OS call failed; the last-error code

  /** Bits 26 to 31: positions that have no drive letter. */
  const InvalidDriveLetterBitmask: bv32 := 0xFC00_0000

  /** Number of drive letters, 'A' to 'Z'. */
  const LetterCount := 26

  /** The lowest `n` bits of `mask`, least significant bit first. */
  function LowBits(mask: bv32, n: nat): (bits: seq<bool>)
    ensures |bits| == n
  {
    if n == 0 then [] else [mask & 1 == 1] + LowBits(mask >> 1, n - 1)
  }

  /** `view_bits::<Lsb0>()`: the 32 bits of the mask, bit 0 first. */
  function ViewBits(mask: bv32): (bits: seq<bool>)
    ensures |bits| == 32
  {
    LowBits(mask, 32)
  }

  /** Bit `i` of `mask`, counted from the least significant bit. */
  predicate Bit(mask: bv32, i: nat)
    requires i < 32
  {
    ViewBits(mask)[i]
  }

  /** The drive letter of bit position `i`: 'A' + i. */
  function DriveLetter(i: nat): char
    requires i < LetterCount
  {
    ('A' as int + i) as char
  }

  /** Whether `c` is one of the letters 'A' to 'Z'. */
  predicate IsDriveLetter(c: char) {
    'A' <= c <= 'Z'
  }

  /** The bit position of a drive letter: c - 'A'. */
  function LetterIndex(c: char): (i: nat)
    requires IsDriveLetter(c)
    ensures i < LetterCount && DriveLetter(i) == c
  {
    c as int - 'A' as int
  }

  /**
   The range `'A'..='Z'` as a sequence: the letters 'A' to 'Z', each once,
   in increasing order.
   */
  function DriveLetterRange(): (letters: seq<char>)
    ensures |letters| == LetterCount
    ensures forall c :: c in letters <==> IsDriveLetter(c)
    ensures forall i, j :: 0 <= i < j < |letters| ==> letters[i] < letters[j]
  {
    var letters := seq(LetterCount, i requires 0 <= i < LetterCount => DriveLetter(i));
    forall c | IsDriveLetter(c) ensures c in letters {
      assert letters[LetterIndex(c)] == c;
    }
    letters
  }

  /**
   `bits.zip(letters).filter_map(..)`: pairs the bits with the letters,
   stopping at the shorter of the two, and keeps the letters whose bit is set.
   */
  function SelectByBits(bits: seq<bool>, letters: seq<char>): (r: seq<char>)
    ensures |r| <= |letters|
    ensures forall c :: c in r <==>
      exists i :: 0 <= i < |bits| && i < |letters| && bits[i] && letters[i] == c
  {
    if bits == [] || letters == [] then []
    else
      var rest := SelectByBits(bits[1..], letters[1..]);
      assert forall c :: c in rest <==>
        exists i :: 1 <= i < |bits| && i < |letters| && bits[i] && letters[i] == c
      by {
        forall c | c in rest
          ensures exists i :: 1 <= i < |bits| && i < |letters| && bits[i] && letters[i] == c
        {
          var j :| 0 <= j < |bits| - 1 && j < |letters| - 1 && bits[1..][j] && letters[1..][j] == c;
          assert bits[j + 1] && letters[j + 1] == c;
        }
        forall c, i | 1 <= i < |bits| && i < |letters| && bits[i] && letters[i] == c
          ensures c in rest
        {
          assert bits[1..][i - 1] && letters[1..][i - 1] == c;
        }
      }
      if bits[0] then [letters[0]] + rest else rest
  }

  /** What a valid mask stands for: { 'A' + i | 0 <= i < 26, bit i set }. */
  ghost function DriveSet(mask: bv32): set<char> {
    set i: nat | i < LetterCount && Bit(mask, i) :: DriveLetter(i)
  }

  /**
   `get_drives`, with the mask GetLogicalDrives returned and the code
   GetLastError would return passed in. A mask of 0 means that the call
   failed; a mask with a bit above 'Z' is refused; otherwise the set bits
   are mapped to their letters.
   */
  function GetDrives(mask: bv32, lastError: u32): (r: Result<set<char>, GetLogicalDrivesError>)
    ensures mask == 0 <==> r == Err(ApiError(lastError))
    ensures r == Err(TooManyDrivesError) <==> mask != 0 && mask & InvalidDriveLetterBitmask != 0
    ensures r.Ok? <==> mask != 0 && mask & InvalidDriveLetterBitmask == 0
    ensures r.Ok? ==> r.value == DriveSet(mask)
  {
    if mask == 0 then
      Err(ApiError(lastError))
    else if mask & InvalidDriveLetterBitmask != 0 then
      Err(TooManyDrivesError)
    else
      var letters := SelectByBits(ViewBits(mask), DriveLetterRange());
      var drives := set c | c in letters;
      assert drives == DriveSet(mask) by {
        forall c | c in drives ensures c in DriveSet(mask) {
          var i :| 0 <= i < 32 && i < LetterCount && ViewBits(mask)[i] && DriveLetterRange()[i] == c;
        }
        forall c | c in DriveSet(mask) ensures c in drives {
          var i: nat :| i < LetterCount && Bit(mask, i) && DriveLetter(i) == c;
          assert ViewBits(mask)[i] && DriveLetterRange()[i] == c;
        }
      }
      Ok(drives)
  }
}
