/**
 The Internet checksum, utils.c:66-78.

 `Checksum` is the definition of RFC 1071, section 1: the complement of the ones' complement sum
 (end-around carry at every addition) of the 16-bit words.  `CalcChecksum16` is the loop of the
 source: one `u32` accumulator that wraps, two folds at the end.  The lemmas relate both to plain
 arithmetic modulo 65535.
 */
module InternetChecksum {
  import opened Arithmetic
  import opened Bytes

  // ---------------------------------------------------------------- the definition

  /** The 16-bit words of a buffer in network order; an odd last byte is the high half of a word. */
  function Words(b: bytes): seq<u16> {
    if |b| == 0 then []
    else if |b| == 1 then [Pair(b[0], 0)]
    else [Pair(b[0], b[1])] + Words(b[2..])
  }

  lemma {:induction false} WordCount(b: bytes)
    ensures 2 * |Words(b)| == |b| || 2 * |Words(b)| == |b| + 1
  {
    if |b| >= 2 {
      WordCount(b[2..]);
    }
  }

  lemma {:induction false} WordAt(b: bytes, i: nat)
    requires 2 * i < |b|
    ensures i < |Words(b)|
    ensures Words(b)[i] == Pair(b[2 * i], if 2 * i + 1 < |b| then b[2 * i + 1] else 0)
  {
    if i > 0 {
      WordAt(b[2..], i - 1);
    }
  }

  /** Ones' complement addition of 16-bit words: a carry out of the top comes back in at the bottom. */
  function OnesAdd(a: u16, b: u16): u16 {
    if a + b < 0x1_0000 then a + b else a + b - 0xFFFF
  }

  function OnesSum(ws: seq<u16>): u16 {
    if ws == [] then 0 else OnesAdd(ws[0], OnesSum(ws[1..]))
  }

  function Checksum(b: bytes): u16 {
    0xFFFF - OnesSum(Words(b))
  }

  // ---------------------------------------------------------------- the machine

  function Sum(ws: seq<u16>): nat {
    if ws == [] then 0 else ws[0] + Sum(ws[1..])
  }

  /** What the loop computes for a buffer of any size, the wrap of the `u32` accumulator included. */
  function MachineChecksum(b: bytes): u16 {
    0xFFFF - Norm(Sum(Words(b)) % 0x1_0000_0000)
  }

  method CalcChecksum16(buff: array<u8>, start: nat, size: nat) returns (r: u16)
    requires start + size <= buff.Length
    ensures r == MachineChecksum(buff[start..start + size])
    ensures size <= MAX_SIZE ==> r == Checksum(buff[start..start + size])
  {
    hide Words, Sum, Norm, Checksum, Htons;
    ghost var b: bytes := buff[start..start + size];
    ghost var ws := Words(b);
    WordCount(b);
    var n := size / 2;
    var result: u32 := 0;
    SumEmpty(ws);
    for i := 0 to n
      invariant result == Sum(ws[..i]) % 0x1_0000_0000
    {
      var word: u16 := Pair(buff[start + 2 * i + 1], buff[start + 2 * i]);
      SwappedWord(b, i);
      SumNext(ws, i);
      result := (result + Htons(word)) % 0x1_0000_0000;
    }
    if size % 2 == 1 {
      WordAt(b, n);
      SumNext(ws, n);
      assert ws[..n + 1] == ws;
      result := (result + Pair(buff[start + size - 1], 0)) % 0x1_0000_0000;
    } else {
      assert ws[..n] == ws;
    }
    r := Finish(result);
    if size <= MAX_SIZE {
      MachineIsChecksum(b);
    }
  }

  /** The two folds and the complement, utils.c:75-77. */
  method Finish(sum: u32) returns (r: u16)
    ensures r == 0xFFFF - Norm(sum)
  {
    var result: u32 := sum;
    result := result % 0x1_0000 + result / 0x1_0000;
    FoldKeepsNorm(sum);
    result := result % 0x1_0000 + result / 0x1_0000;
    FoldKeepsNorm(Fold(sum));
    r := (0xFFFF_FFFF - result) % 0x1_0000;
  }

  /** NTOHS of the word the host loads is the word in network order. */
  lemma SwappedWord(b: bytes, i: nat)
    requires 2 * i + 1 < |b| && i < |Words(b)|
    ensures Htons(Pair(b[2 * i + 1], b[2 * i])) == Words(b)[i]
  {
    PairParts(b[2 * i + 1], b[2 * i]);
    WordAt(b, i);
  }

  lemma SumEmpty(ws: seq<u16>)
    ensures Sum(ws[..0]) == 0
  {
  }

  lemma SumNext(ws: seq<u16>, i: nat)
    requires i < |ws|
    ensures Sum(ws[..i + 1]) % 0x1_0000_0000 == (Sum(ws[..i]) % 0x1_0000_0000 + ws[i]) % 0x1_0000_0000
  {
    assert ws[..i + 1] == ws[..i] + [ws[i]];
    SumConcat(ws[..i], [ws[i]]);
    assert Sum([ws[i]]) == ws[i];
    WrapAdd(Sum(ws[..i]), ws[i]);
  }

  // ---------------------------------------------------------------- arithmetic modulo 65535

  /** The ones' complement value of a sum: its residue modulo 65535, with 0 kept for the zero sum alone. */
  function Norm(s: nat): (r: u16)
    ensures r == 0 <==> s == 0
  {
    if s <= 0xFFFF then s else Norm(s - 0xFFFF)
  }

  /** How many times 65535 was taken out. */
  function Carries(s: nat): (k: nat)
    ensures s == Norm(s) + 0xFFFF * k
  {
    if s <= 0xFFFF then 0 else 1 + Carries(s - 0xFFFF)
  }

  lemma {:induction false} NormUnique(s: nat, r: u16, k: int)
    requires s == r + 0xFFFF * k && (r == 0 <==> s == 0)
    ensures Norm(s) == r
  {
    if s > 0xFFFF {
      NormUnique(s - 0xFFFF, r, k - 1);
    }
  }

  /** `Norm` adds: sums may be normalised in pieces. */
  lemma NormAdd(a: nat, b: nat)
    ensures Norm(a + b) == OnesAdd(Norm(a), Norm(b))
  {
    var x: nat, y: nat := Norm(a), Norm(b);
    var k := Carries(a) + Carries(b);
    if x + y < 0x1_0000 {
      NormUnique(a + b, x + y, k);
    } else {
      NormUnique(a + b, x + y - 0xFFFF, k + 1);
    }
  }

  /** The folding of end-around carries is addition modulo 65535. */
  lemma {:induction false} OnesSumIsNorm(ws: seq<u16>)
    ensures OnesSum(ws) == Norm(Sum(ws))
  {
    if ws != [] {
      OnesSumIsNorm(ws[1..]);
      NormAdd(ws[0], Sum(ws[1..]));
    }
  }

  /** One fold of the accumulator, utils.c:75. */
  function Fold(x: u32): u32 {
    x % 0x1_0000 + x / 0x1_0000
  }

  /** A fold keeps the ones' complement value, and the second one always reaches 16 bits. */
  lemma FoldKeepsNorm(x: u32)
    ensures Norm(Fold(x)) == Norm(x)
    ensures Fold(x) <= 0x1_FFFE
    ensures x <= 0x1_FFFE ==> Fold(x) == Norm(x)
  {
    var y := Fold(x);
    assert x == y + 0xFFFF * (x / 0x1_0000);
    NormUnique(x, Norm(y), Carries(y) + x / 0x1_0000);
  }

  lemma {:induction false} SumConcat(a: seq<u16>, b: seq<u16>)
    ensures Sum(a + b) == Sum(a) + Sum(b)
  {
    if a == [] {
      assert a + b == b;
    } else {
      SumConcat(a[1..], b);
      assert (a + b)[1..] == a[1..] + b;
    }
  }

  lemma {:induction false} SumBound(ws: seq<u16>)
    ensures Sum(ws) <= |ws| * 0xFFFF
  {
    if ws != [] {
      SumBound(ws[1..]);
    }
  }

  // ---------------------------------------------------------------- the size bound

  /** 65537 words: the largest sum is then 65537 * 65535 == 2^32 - 1. */
  const MAX_SIZE := 131074

  lemma NoOverflow(b: bytes)
    requires |b| <= MAX_SIZE
    ensures Sum(Words(b)) < 0x1_0000_0000
  {
    SumBound(Words(b));
    WordCount(b);
    assert |Words(b)| <= 65537;
  }

  lemma MachineIsChecksum(b: bytes)
    requires |b| <= MAX_SIZE
    ensures MachineChecksum(b) == Checksum(b)
  {
    hide Words;
    NoOverflow(b);
    OnesSumIsNorm(Words(b));
  }

  /** A buffer of `n` bytes whose word sum passes 2^32: 131075 bytes 0xFF, then zeros. */
  function Overflowing(n: nat): bytes {
    seq(n, i => if i <= MAX_SIZE then 0xFF else 0)
  }

  lemma {:induction false} SumOfRepeated(n: nat, w: u16)
    ensures Sum(seq(n, _ => w)) == n * w
  {
    if n > 0 {
      assert seq(n, _ => w)[1..] == seq(n - 1, _ => w);
      SumOfRepeated(n - 1, w);
    }
  }

  lemma OverflowingWords(n: nat) returns (rest: seq<u16>)
    requires n > MAX_SIZE
    ensures Words(Overflowing(n)) == seq(65537, _ => 0xFFFF) + [0xFF00] + rest
    ensures forall i :: 0 <= i < |rest| ==> rest[i] == 0
  {
    var b := Overflowing(n);
    var ws := Words(b);
    WordCount(b);
    forall i | 0 <= i < |ws| ensures ws[i] == if i < 65537 then 0xFFFF else if i == 65537 then 0xFF00 else 0 {
      WordAt(b, i);
    }
    rest := ws[65538..];
  }

  lemma OverflowGivesWrongResult(n: nat)
    requires n > MAX_SIZE
    ensures MachineChecksum(Overflowing(n)) != Checksum(Overflowing(n))
  {
    hide Words, Overflowing;
    var rest := OverflowingWords(n);
    var ws := Words(Overflowing(n));
    var full: seq<u16> := seq(65537, _ => 0xFFFF);
    SumConcat(full + [0xFF00], rest);
    SumConcat(full, [0xFF00]);
    SumOfRepeated(65537, 0xFFFF);
    SumOfZeros(rest);
    assert Sum(ws) == 0xFFFF_FFFF + 0xFF00;
    OnesSumIsNorm(ws);
    NormUnique(0xFFFF_FFFF + 0xFF00, 0xFF00, 65537);
    assert (0xFFFF_FFFF + 0xFF00) % 0x1_0000_0000 == 0xFEFF;
  }

  /** The checksum of every buffer of a given size is right exactly up to 131074 bytes. */
  lemma CorrectExactlyUpTo(n: nat)
    ensures (forall b: bytes | |b| == n :: MachineChecksum(b) == Checksum(b)) <==> n <= MAX_SIZE
  {
    if n <= MAX_SIZE {
      forall b: bytes | |b| == n ensures MachineChecksum(b) == Checksum(b) {
        MachineIsChecksum(b);
      }
    } else {
      OverflowGivesWrongResult(n);
      assert |Overflowing(n)| == n;
    }
  }

  // ---------------------------------------------------------------- laws of RFC 1071, section 2

  lemma {:induction false} SumRemove(ws: seq<u16>, i: nat)
    requires i < |ws|
    ensures Sum(ws) == ws[i] + Sum(ws[..i] + ws[i + 1..])
  {
    assert ws == ws[..i] + ([ws[i]] + ws[i + 1..]);
    SumConcat(ws[..i], [ws[i]] + ws[i + 1..]);
    SumConcat([ws[i]], ws[i + 1..]);
    SumConcat(ws[..i], ws[i + 1..]);
    assert Sum([ws[i]]) == ws[i];
  }

  lemma MultisetRemove(ws: seq<u16>, i: nat)
    requires i < |ws|
    ensures multiset(ws[..i] + ws[i + 1..]) == multiset(ws) - multiset{ws[i]}
  {
    assert ws == ws[..i] + ([ws[i]] + ws[i + 1..]);
  }

  /** Taking the same word out of two sequences with the same words leaves the same words. */
  lemma RestSame(a: seq<u16>, b: seq<u16>, i: nat)
    requires a != [] && multiset(a) == multiset(b) && i < |b| && b[i] == a[0]
    ensures multiset(a[1..]) == multiset(b[..i] + b[i + 1..])
  {
    MultisetRemove(a, 0);
    MultisetRemove(b, i);
    assert a[..0] + a[1..] == a[1..];
  }

  lemma FirstIsIn(a: seq<u16>, b: seq<u16>) returns (i: nat)
    requires a != [] && multiset(a) == multiset(b)
    ensures i < |b| && b[i] == a[0]
  {
    assert a[0] in multiset(b);
    i :| 0 <= i < |b| && b[i] == a[0];
  }

  lemma {:induction false} SumPermutation(a: seq<u16>, b: seq<u16>)
    requires multiset(a) == multiset(b)
    ensures Sum(a) == Sum(b)
    decreases |a|
  {
    if a == [] {
      assert |multiset(b)| == 0;
    } else {
      var i := FirstIsIn(a, b);
      RestSame(a, b, i);
      SumPermutation(a[1..], b[..i] + b[i + 1..]);
      SumRemove(b, i);
    }
  }

  /** The order of the words does not matter. */
  lemma WordOrderIrrelevant(a: bytes, b: bytes)
    requires multiset(Words(a)) == multiset(Words(b))
    ensures Checksum(a) == Checksum(b)
  {
    SumPermutation(Words(a), Words(b));
    OnesSumIsNorm(Words(a));
    OnesSumIsNorm(Words(b));
  }

  lemma {:induction false} WordsConcat(a: bytes, b: bytes)
    requires |a| % 2 == 0
    ensures Words(a + b) == Words(a) + Words(b)
  {
    if a == [] {
      assert a + b == b;
    } else {
      assert (a + b)[2..] == a[2..] + b;
      WordsConcat(a[2..], b);
    }
  }

  /** The checksum of an even-length piece followed by anything comes from the checksums of the two. */
  lemma PiecesCompose(a: bytes, b: bytes)
    requires |a| % 2 == 0
    ensures Checksum(a + b) == 0xFFFF - OnesAdd(0xFFFF - Checksum(a), 0xFFFF - Checksum(b))
  {
    hide Words;
    WordsConcat(a, b);
    SumConcat(Words(a), Words(b));
    OnesSumIsNorm(Words(a));
    OnesSumIsNorm(Words(b));
    OnesSumIsNorm(Words(a + b));
    NormAdd(Sum(Words(a)), Sum(Words(b)));
  }

  // ---------------------------------------------------------------- a checksum field inside the buffer

  /** Storing HTONS(v) in the 16-bit field at offset `at`: high byte first. */
  function Patch(b: bytes, at: nat, v: u16): bytes
    requires at + 2 <= |b|
  {
    b[at := Hi(v)][at + 1 := Lo(v)]
  }

  /** The field at offset `at`, read in network order. */
  function Field(b: bytes, at: nat): u16
    requires at + 2 <= |b|
  {
    Pair(b[at], b[at + 1])
  }

  /** Some byte outside the field is not zero. */
  predicate NonZeroOutside(b: bytes, at: nat)
    requires at + 2 <= |b|
  {
    exists i :: 0 <= i < |b| && (i < at || at + 2 <= i) && b[i] != 0
  }

  /** `Field` and `Patch` are the host's load and store, byte-swapped. */
  lemma FieldInMemory(b: bytes, at: nat, v: u16)
    requires at + 2 <= |b|
    ensures Field(b, at) == Htons(Load16(b, at))
    ensures Patch(b, at, v) == Splice(b, at, Store16(Htons(v)))
  {
    PairParts(b[at + 1], b[at]);
    NetworkOrder16(v);
  }

  lemma {:induction false} PatchWords(b: bytes, k: nat, v: u16)
    requires 2 * k + 2 <= |b|
    ensures k < |Words(b)| && Words(b)[k] == Field(b, 2 * k)
    ensures Words(Patch(b, 2 * k, v)) == Words(b)[k := v]
  {
    WordAt(b, k);
    var b' := Patch(b, 2 * k, v);
    PairOf(v);
    assert b'[2 * k] == Hi(v) && b'[2 * k + 1] == Lo(v);
    if k > 0 {
      assert b'[2..] == Patch(b[2..], 2 * (k - 1), v);
      PatchWords(b[2..], k - 1, v);
    } else {
      assert b'[2..] == b[2..];
    }
  }

  lemma SumUpdate(ws: seq<u16>, i: nat, v: u16)
    requires i < |ws|
    ensures Sum(ws[i := v]) == Sum(ws) - ws[i] + v
  {
    var us := ws[i := v];
    SumRemove(ws, i);
    SumRemove(us, i);
    assert us[..i] == ws[..i] && us[i + 1..] == ws[i + 1..];
  }

  lemma {:induction false} SumPositive(ws: seq<u16>, i: nat)
    requires i < |ws| && ws[i] != 0
    ensures Sum(ws) > 0
  {
    if i > 0 {
      SumPositive(ws[1..], i - 1);
    }
  }

  lemma {:induction false} SumOfZeros(ws: seq<u16>)
    requires forall i :: 0 <= i < |ws| ==> ws[i] == 0
    ensures Sum(ws) == 0
  {
    if ws != [] {
      SumOfZeros(ws[1..]);
    }
  }

  /** A byte that is not zero makes its word so. */
  lemma NonZeroWord(b: bytes, i: nat, j: nat)
    requires i < |b| && b[i] != 0 && (i == 2 * j || i == 2 * j + 1)
    ensures j < |Words(b)| && Words(b)[j] != 0
  {
    WordAt(b, j);
  }

  lemma RestZero(b: bytes, k: nat)
    requires 2 * k + 2 <= |b| && !NonZeroOutside(b, 2 * k) && k < |Words(b)|
    ensures Sum(Words(b)[k := 0]) == 0
  {
    var zs := Words(b)[k := 0];
    WordCount(b);
    forall j | 0 <= j < |zs| ensures zs[j] == 0 {
      if j != k {
        WordAt(b, j);
        assert b[2 * j] == 0;
        assert 2 * j + 1 < |b| ==> b[2 * j + 1] == 0;
      }
    }
    SumOfZeros(zs);
  }

  /** The law on sums: `rest` is the sum of the other words, `f` the value of the field before. */
  lemma FillArithmetic(rest: nat, f: u16)
    ensures Norm(rest + (0xFFFF - Norm(rest + f))) == 0xFFFF <==> f == 0 || (f == 0xFFFF && rest > 0)
  {
    var s := rest + f;
    var t := rest + (0xFFFF - Norm(s));
    var k := Carries(s);
    assert t == 0xFFFF * (k + 1) - f;
    if f == 0 {
      NormUnique(t, 0xFFFF, k);
    } else if f == 0xFFFF && rest > 0 {
      NormUnique(t, 0xFFFF, k - 1);
    } else if f == 0xFFFF {
      assert t == 0;
    } else {
      NormUnique(t, 0xFFFF - f, k);
    }
  }

  /**
   The exact fill/check law.  Writing the checksum of a buffer into its own checksum field makes the
   checksum zero if and only if the field held 0x0000 before, or 0xFFFF in a buffer that is not zero
   everywhere else.
   */
  lemma FillThenCheck(b: bytes, k: nat)
    requires 2 * k + 2 <= |b|
    ensures Checksum(Patch(b, 2 * k, Checksum(b))) == 0
       <==> Field(b, 2 * k) == 0 || (Field(b, 2 * k) == 0xFFFF && NonZeroOutside(b, 2 * k))
  {
    hide Words, Norm, Patch, Field;
    var ws, f, c := Words(b), Field(b, 2 * k), Checksum(b);
    PatchWords(b, k, c);
    SumUpdate(ws, k, 0);
    SumUpdate(ws, k, c);
    OnesSumIsNorm(ws);
    OnesSumIsNorm(ws[k := c]);
    if NonZeroOutside(b, 2 * k) {
      var i :| 0 <= i < |b| && (i < 2 * k || 2 * k + 2 <= i) && b[i] != 0;
      NonZeroWord(b, i, i / 2);
      SumPositive(ws[k := 0], i / 2);
    } else {
      RestZero(b, k);
    }
    FillArithmetic(Sum(ws[k := 0]), f);
  }

  /** The same law for a field that holds zero: the case of every locally built header. */
  lemma FillZeroField(b: bytes, k: nat)
    requires 2 * k + 2 <= |b| && Field(b, 2 * k) == 0
    ensures Checksum(Patch(b, 2 * k, Checksum(b))) == 0
  {
    FillThenCheck(b, k);
  }
}
