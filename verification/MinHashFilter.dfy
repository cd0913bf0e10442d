/** MinHashFilter: a fixed number of hashes per token, printed in base 62.

Hashes are FNV-1a over the token's bytes, then the hash index, then the bucket
index. Go's uint64 is modelled as an integer modulo two to the 64.
*/
module MinHash {
  import opened PowersOfTwo

  type Byte = b: nat | b < 256

  const MODULUS: nat := 0x1_0000_0000_0000_0000
  const OFFSET_BASIS: nat := 14695981039346656037
  const PRIME: nat := 1099511628211
  const BASE: nat := 62
  const DECIMAL := "0123456789"
  const UPPER := "ABCDEFGHIJKLMNOPQRSTUVWXYZ"
  const LOWER := "abcdefghijklmnopqrstuvwxyz"
  const CHARS := DECIMAL + UPPER + LOWER

  /** The modulus of uint64 arithmetic. */
  lemma ModulusIsPower()
    ensures MODULUS == Pow2(64)
  {
    Pow2Splits(8, 8);
    Pow2Splits(16, 16);
    Pow2Splits(32, 32);
    assert Pow2(8) == 256;
  }

  // ---------- Exclusive or ----------

  function Xor(x: nat, y: nat): nat
    decreases x + y
  {
    if x == 0 && y == 0 then 0 else (x + y) % 2 + 2 * Xor(x / 2, y / 2)
  }

  lemma XorDigits(x: nat, y: nat)
    ensures Xor(x, y) / 2 == Xor(x / 2, y / 2) && Xor(x, y) % 2 == (x + y) % 2
  {
    if x != 0 || y != 0 {
      DivModUnique(Xor(x, y), 2, Xor(x / 2, y / 2), (x + y) % 2);
    }
  }

  lemma {:induction false} XorCancels(x: nat, y: nat)
    ensures Xor(Xor(x, y), y) == x
    decreases x + y
  {
    if x != 0 || y != 0 {
      XorCancels(x / 2, y / 2);
      CancelStep(x, y, Xor(x, y));
    }
  }

  lemma CancelStep(x: nat, y: nat, z: nat)
    requires z == Xor(x, y) && Xor(Xor(x / 2, y / 2), y / 2) == x / 2
    ensures Xor(z, y) == x
  {
    hide Xor;
    XorDigits(x, y);
    XorDigits(z, y);
    Parity(x, y, z);
  }

  lemma Parity(x: nat, y: nat, z: nat)
    requires z % 2 == (x + y) % 2
    ensures (z + y) % 2 == x % 2
  {
  }

  lemma {:induction false} XorSymmetric(x: nat, y: nat)
    ensures Xor(x, y) == Xor(y, x)
    decreases x + y
  {
    if x != 0 || y != 0 {
      XorSymmetric(x / 2, y / 2);
    }
  }

  lemma {:induction false} XorBelow(x: nat, y: nat, p: nat)
    requires x < Pow2(p) && y < Pow2(p)
    ensures Xor(x, y) < Pow2(p)
  {
    if p > 0 && (x != 0 || y != 0) {
      assert Pow2(p) == 2 * Pow2(p - 1);
      XorBelow(x / 2, y / 2, p - 1);
    }
  }

  // ---------- The hash ----------

  function Mix(hash: nat, value: nat): nat {
    (Xor(hash, value) * PRIME) % MODULUS
  }

  function MixAll(hash: nat, values: seq<nat>): nat {
    if values == [] then hash else Mix(MixAll(hash, values[..|values| - 1]), values[|values| - 1])
  }

  /** What the token, the hash index and the bucket index are hashed to. */
  function Hash(token: seq<Byte>, hashIdx: nat, bucketIdx: nat): (h: nat) {
    MixAll(OFFSET_BASIS, token + [hashIdx, bucketIdx])
  }

  method ComputeHash(token: seq<Byte>, hashIdx: nat, bucketIdx: nat) returns (hash: nat)
    ensures hash == Hash(token, hashIdx, bucketIdx)
  {
    hash := OFFSET_BASIS;
    for i := 0 to |token|
      invariant hash == MixAll(OFFSET_BASIS, token[..i])
    {
      assert token[..i + 1][..i] == token[..i];
      hash := Xor(hash, token[i]);
      hash := (hash * PRIME) % MODULUS;
    }
    assert token[..|token|] == token;
    HashEnds(token, hashIdx, bucketIdx);
    hash := Xor(hash, hashIdx);
    hash := (hash * PRIME) % MODULUS;
    hash := Xor(hash, bucketIdx);
    hash := (hash * PRIME) % MODULUS;
  }

  lemma HashEnds(token: seq<Byte>, hashIdx: nat, bucketIdx: nat)
    ensures Hash(token, hashIdx, bucketIdx) == Mix(Mix(MixAll(OFFSET_BASIS, token), hashIdx), bucketIdx)
  {
    hide Mix;
    MixLast(OFFSET_BASIS, token + [hashIdx], bucketIdx);
    MixLast(OFFSET_BASIS, token, hashIdx);
    assert token + [hashIdx, bucketIdx] == token + [hashIdx] + [bucketIdx];
  }

  lemma MixLast(hash: nat, values: seq<nat>, last: nat)
    ensures MixAll(hash, values + [last]) == Mix(MixAll(hash, values), last)
  {
    hide Mix;
    assert (values + [last])[..|values|] == values;
  }

  lemma MixAllBelow(hash: nat, values: seq<nat>)
    requires hash < MODULUS
    ensures MixAll(hash, values) < MODULUS
  {
  }

  /** Mixing loses nothing: the multiplier is odd. */
  lemma MixInjective(h: nat, v: nat, h': nat, v': nat)
    requires h < MODULUS && v < MODULUS && h' < MODULUS && v' < MODULUS
    requires Mix(h, v) == Mix(h', v')
    ensures Xor(h, v) == Xor(h', v')
  {
    hide Pow2, Xor;
    ModulusIsPower();
    XorBelow(h, v, 64);
    XorBelow(h', v', 64);
    OddMultiplicationInjective(PRIME, 64, Xor(h, v), Xor(h', v'));
  }

  lemma MixValueInjective(h: nat, v: nat, v': nat)
    requires h < MODULUS && v < MODULUS && v' < MODULUS
    requires Mix(h, v) == Mix(h, v')
    ensures v == v'
  {
    hide Mix, Xor;
    MixInjective(h, v, h, v');
    XorSymmetric(h, v);
    XorSymmetric(h, v');
    XorCancels(v, h);
    XorCancels(v', h);
  }

  lemma MixHashInjective(h: nat, h': nat, v: nat)
    requires h < MODULUS && h' < MODULUS && v < MODULUS
    requires Mix(h, v) == Mix(h', v)
    ensures h == h'
  {
    hide Mix, Xor;
    MixInjective(h, v, h', v);
    XorCancels(h, v);
    XorCancels(h', v);
  }

  lemma MixBelow(h: nat, v: nat)
    ensures Mix(h, v) < MODULUS
  {
  }

  /** Within a bucket, different hash functions give different hashes; with one hash
      function, different buckets do. */
  lemma HashesDiffer(token: seq<Byte>, i: nat, b: nat, i': nat, b': nat)
    requires i < MODULUS && b < MODULUS && i' < MODULUS && b' < MODULUS
    requires (i != i' && b == b') || (i == i' && b != b')
    ensures Hash(token, i, b) != Hash(token, i', b')
  {
    hide Mix, MixAll, Hash;
    HashEnds(token, i, b);
    HashEnds(token, i', b');
    MixAllBelow(OFFSET_BASIS, token);
    var h := MixAll(OFFSET_BASIS, token);
    MixBelow(h, i);
    MixBelow(h, i');
    if Hash(token, i, b) == Hash(token, i', b') {
      if b == b' {
        MixHashInjective(Mix(h, i), Mix(h, i'), b);
        MixValueInjective(h, i, i');
      } else {
        MixValueInjective(Mix(h, i), b, b');
      }
    }
  }

  // ---------- Known hashes ----------

  /** Exclusive or where only the lowest n bits of y are set. */
  function LowXor(x: nat, y: nat, n: nat): nat {
    if n == 0 then x else (x + y) % 2 + 2 * LowXor(x / 2, y / 2, n - 1)
  }

  lemma {:induction false} XorIsLow(x: nat, y: nat, n: nat)
    requires y < Pow2(n)
    ensures Xor(x, y) == LowXor(x, y, n)
  {
    if n == 0 {
      XorNothing(x);
    } else if x != 0 || y != 0 {
      XorIsLow(x / 2, y / 2, n - 1);
    } else {
      XorIsLow(0, 0, n - 1);
    }
  }

  lemma {:induction false} XorNothing(x: nat)
    ensures Xor(x, 0) == x
  {
    if x != 0 {
      XorNothing(x / 2);
    }
  }

  lemma XorF()
    ensures Xor(0xCBF29CE484222325, 0x66) == 0xCBF29CE484222343
  {
    assert LowXor(0x197E539C9084446, 0x00, 1) == 0x197E539C9084446;
    assert LowXor(0x32FCA739210888C, 0x01, 2) == 0x32FCA739210888D;
    assert LowXor(0x65F94E724211119, 0x03, 3) == 0x65F94E72421111A;
    assert LowXor(0xCBF29CE48422232, 0x06, 4) == 0xCBF29CE48422234;
    assert LowXor(0x197E539C90844464, 0x0C, 5) == 0x197E539C90844468;
    assert LowXor(0x32FCA739210888C9, 0x19, 6) == 0x32FCA739210888D0;
    assert LowXor(0x65F94E7242111192, 0x33, 7) == 0x65F94E72421111A1;
    XorIsLow(0xCBF29CE484222325, 0x66, 8);
  }

  lemma XorO()
    ensures Xor(0xAF63DB4C8601EAD9, 0x6F) == 0xAF63DB4C8601EAB6
  {
    assert LowXor(0x15EC7B6990C03D5, 0x00, 1) == 0x15EC7B6990C03D5;
    assert LowXor(0x2BD8F6D321807AB, 0x01, 2) == 0x2BD8F6D321807AA;
    assert LowXor(0x57B1EDA64300F56, 0x03, 3) == 0x57B1EDA64300F55;
    assert LowXor(0xAF63DB4C8601EAD, 0x06, 4) == 0xAF63DB4C8601EAB;
    assert LowXor(0x15EC7B6990C03D5B, 0x0D, 5) == 0x15EC7B6990C03D56;
    assert LowXor(0x2BD8F6D321807AB6, 0x1B, 6) == 0x2BD8F6D321807AAD;
    assert LowXor(0x57B1EDA64300F56C, 0x37, 7) == 0x57B1EDA64300F55B;
    XorIsLow(0xAF63DB4C8601EAD9, 0x6F, 8);
  }

  /** The published 64-bit FNV-1a values: the empty text, and the text fo, read here as
      the hash index and the bucket index of an empty token. */
  lemma KnownHash()
    ensures MixAll(OFFSET_BASIS, []) == 0xCBF29CE484222325
    ensures Hash([], 0x66, 0x6F) == 0x08985907B541D342
  {
    hide Xor, LowXor, Mix;
    HashEnds([], 0x66, 0x6F);
    MixF();
    MixO();
  }

  lemma MixF()
    ensures Mix(0xCBF29CE484222325, 0x66) == 0xAF63DB4C8601EAD9
  {
    hide Xor, LowXor;
    XorF();
    Remainder(0xCBF29CE484222343 * PRIME, 0xCBF29CE5DE, 0xAF63DB4C8601EAD9);
  }

  lemma MixO()
    ensures Mix(0xAF63DB4C8601EAD9, 0x6F) == 0x08985907B541D342
  {
    hide Xor, LowXor;
    XorO();
    Remainder(0xAF63DB4C8601EAB6 * PRIME, 0xAF63DB4DB0, 0x8985907B541D342);
  }

  lemma Remainder(x: nat, q: nat, r: nat)
    requires r < MODULUS && x == q * MODULUS + r
    ensures x % MODULUS == r
  {
  }

  // ---------- Printing ----------

  function Digits(h: nat): (digits: string) {
    if h == 0 then [] else Digits(h / BASE) + [CHARS[h % BASE]]
  }

  function ToText(h: nat): string {
    if h == 0 then "0" else Digits(h)
  }

  /** The digits in the order opposite to that in which they were found. */
  function FromLast(digits: string): (text: string)
    ensures |text| == |digits|
  {
    if digits == "" then "" else [digits[|digits| - 1]] + FromLast(digits[..|digits| - 1])
  }

  lemma {:induction false} DigitFromLast(digits: string, k: nat)
    requires k < |digits|
    ensures FromLast(digits)[k] == digits[|digits| - 1 - k]
  {
    if k > 0 {
      DigitFromLast(digits[..|digits| - 1], k - 1);
    }
  }

  lemma LeadingDigit(digits: string, d: char)
    ensures FromLast(digits + [d]) == [d] + FromLast(digits)
  {
    assert (digits + [d])[..|digits|] == digits;
  }

  method HashToString(hash: nat) returns (text: string)
    ensures text == ToText(hash)
  {
    if hash == 0 {
      return "0";
    }
    var left: nat := hash;
    var result := "";
    while left > 0
      invariant Digits(left) + FromLast(result) == Digits(hash)
    {
      LeadingDigit(result, CHARS[left % BASE]);
      result := result + [CHARS[left % BASE]];
      left := left / BASE;
    }
    text := ReverseText(result);
  }

  /** Swaps from both ends inwards. */
  method ReverseText(s: string) returns (result: string)
    ensures result == FromLast(s)
  {
    result := s;
    var i, j := 0, |result| - 1;
    while i < j
      invariant |result| == |s| && 0 <= i && j == |s| - 1 - i && i <= j + 1
      invariant forall k :: i <= k <= j ==> result[k] == s[k]
      invariant forall k :: 0 <= k < i ==> result[k] == s[|s| - 1 - k]
      invariant forall k :: j < k < |s| ==> result[k] == s[|s| - 1 - k]
    {
      result := result[i := result[j]][j := result[i]];
      i, j := i + 1, j - 1;
    }
    forall k | 0 <= k < |s|
      ensures result[k] == FromLast(s)[k]
    {
      DigitFromLast(s, k);
    }
  }

  function DigitValue(c: char): int {
    if c <= '9' then c as int - '0' as int
    else if c <= 'Z' then c as int - 'A' as int + 10
    else c as int - 'a' as int + 36
  }

  function Value(text: string): int {
    if text == [] then 0 else Value(text[..|text| - 1]) * BASE + DigitValue(text[|text| - 1])
  }

  lemma DecimalAt(d: nat)
    requires d < 10
    ensures |DECIMAL| == 10 && DECIMAL[d] as int == '0' as int + d
  {
  }

  lemma UpperAt(d: nat)
    requires d < 26
    ensures |UPPER| == 26 && UPPER[d] as int == 'A' as int + d
  {
  }

  lemma LowerAt(d: nat)
    requires d < 26
    ensures |LOWER| == 26 && LOWER[d] as int == 'a' as int + d
  {
  }

  lemma DigitsAreDistinct(d: nat)
    requires d < BASE
    ensures DigitValue(CHARS[d]) == d
  {
    if d < 10 {
      DecimalAt(d);
    } else if d < 36 {
      UpperAt(d - 10);
    } else {
      LowerAt(d - 36);
    }
  }

  lemma {:induction false} DigitsValue(h: nat)
    ensures Value(Digits(h)) == h
  {
    if h > 0 {
      DigitsValue(h / BASE);
      DigitsAreDistinct(h % BASE);
      var digits := Digits(h);
      assert digits[..|digits| - 1] == Digits(h / BASE);
    }
  }

  /** Reading a printed hash gives it back. */
  lemma TextValue(h: nat)
    ensures Value(ToText(h)) == h
  {
    if h == 0 {
      assert "0"[..0] == "";
    } else {
      DigitsValue(h);
    }
  }

  /** The digits are 0 to 9, then A to Z, then a to z. */
  lemma DigitIs(d: nat)
    requires d < 62
    ensures CHARS[d] as int == if d < 10 then '0' as int + d
                               else if d < 36 then 'A' as int + d - 10
                               else 'a' as int + d - 36
  {
    if d < 10 {
      DecimalAt(d);
    } else if d < 36 {
      UpperAt(d - 10);
    } else {
      LowerAt(d - 36);
    }
  }

  lemma DigitsStep(h: nat, q: nat, d: nat)
    requires d < 62 && h == 62 * q + d && h > 0
    ensures Digits(h) == Digits(q) + [CHARS[d]]
  {
    DivModUnique(h, 62, q, d);
  }

  /** A number below 62 is printed as its digit, any other as those of its quotient and
      the digit of its remainder. */
  lemma TextIs(q: nat, d: nat)
    requires d < 62
    ensures q > 0 ==> ToText(62 * q + d) == ToText(q) + [CHARS[d]]
    ensures ToText(d) == [CHARS[d]]
  {
    hide Digits;
    DigitIs(0);
    NoDigits();
    if d > 0 {
      DigitsStep(d, 0, d);
    }
    if q > 0 {
      DigitsStep(62 * q + d, q, d);
    }
  }

  lemma NoDigits()
    ensures Digits(0) == []
  {
  }

  function Power(d: nat): nat {
    if d == 0 then 1 else BASE * Power(d - 1)
  }

  lemma {:induction false} DigitCount(h: nat, d: nat)
    requires h < Power(d)
    ensures |Digits(h)| <= d
  {
    if h > 0 {
      assert d > 0 && h / BASE < Power(d - 1);
      DigitCount(h / BASE, d - 1);
    }
  }

  /** The source's buffer of eleven characters suffices. */
  lemma TextIsShort(h: nat)
    requires h < MODULUS
    ensures 1 <= |ToText(h)| <= 11
  {
    ElevenDigits();
    DigitCount(h, 11);
  }

  lemma ElevenDigits()
    ensures MODULUS <= Power(11)
  {
    assert Power(4) == 14776336;
    assert Power(5) == 62 * Power(4) && Power(6) == 62 * Power(5);
    assert Power(7) == 62 * Power(6) && Power(8) == 62 * Power(7);
    assert Power(9) == 62 * Power(8) && Power(10) == 62 * Power(9) && Power(11) == 62 * Power(10);
  }

  // ---------- The filter ----------

  function Buckets(bucketCount: int): (n: nat)
    ensures n > 0
  {
    if bucketCount > 0 then bucketCount else 1
  }

  function Term(token: seq<Byte>, hashIdx: nat, bucketIdx: nat): string {
    ToText(Hash(token, hashIdx, bucketIdx))
  }

  /** The larger of the bucket count and one. */
  lemma BucketsAre(bucketCount: int)
    ensures Buckets(bucketCount) >= bucketCount && (Buckets(bucketCount) == 1 || Buckets(bucketCount) == bucketCount)
  {
  }

  /** The terms of one token: for every hash function in turn all its buckets, but
      only the first term of all for an empty token. */
  function Terms(token: seq<Byte>, hashCount: nat, bucketCount: int): (terms: seq<string>) {
    var b := Buckets(bucketCount);
    seq(if token == [] && hashCount > 0 then 1 else hashCount * b, k requires k >= 0 => Term(token, k / b, k % b))
  }

  function AllTerms(tokens: seq<seq<Byte>>, hashCount: nat, bucketCount: int): seq<string> {
    if tokens == [] then [] else Terms(tokens[0], hashCount, bucketCount) + AllTerms(tokens[1..], hashCount, bucketCount)
  }

  /** The term of hash function i and bucket j stands behind those of the hash functions
      before i, and behind those of its own buckets before j. */
  lemma TermAt(token: seq<Byte>, hashCount: nat, bucketCount: int, i: nat, j: nat)
    requires i < hashCount && j < (if bucketCount > 0 then bucketCount else 1) && (token == [] ==> i == j == 0)
    ensures var k := if bucketCount > 0 then i * bucketCount + j else i;
            k < |Terms(token, hashCount, bucketCount)|
            && Terms(token, hashCount, bucketCount)[k] == ToText(Hash(token, i, j))
  {
    hide Hash, ToText;
    IndexBounds(i, j, hashCount, Buckets(bucketCount));
  }

  /** The terms of one token at a bucket, or of one hash function, all differ, as long
      as the counts fit a machine word. */
  lemma TermsDiffer(token: seq<Byte>, hashCount: nat, bucketCount: int, k: nat, k': nat)
    requires hashCount <= MODULUS && Buckets(bucketCount) <= MODULUS
    requires k < |Terms(token, hashCount, bucketCount)| && k' < |Terms(token, hashCount, bucketCount)| && k != k'
    requires k / Buckets(bucketCount) == k' / Buckets(bucketCount) || k % Buckets(bucketCount) == k' % Buckets(bucketCount)
    ensures Terms(token, hashCount, bucketCount)[k] != Terms(token, hashCount, bucketCount)[k']
  {
    hide Hash, ToText, Buckets;
    var n := Buckets(bucketCount);
    IndexParts(k, hashCount, n);
    IndexParts(k', hashCount, n);
    HashesDiffer(token, k / n, k % n, k' / n, k' % n);
    TextValue(Hash(token, k / n, k % n));
    TextValue(Hash(token, k' / n, k' % n));
  }

  lemma IndexParts(k: nat, m: nat, n: nat)
    requires n > 0 && (k < m * n || (k < 1 && m > 0))
    ensures 0 <= k / n < m && 0 <= k % n < n && k == Index(k / n, k % n, n)
  {
    if k / n >= m {
      MulMonotone(m, k / n, n);
    }
  }

  lemma MulMonotone(a: nat, b: nat, n: nat)
    requires a <= b
    ensures a * n <= b * n
  {
  }

  lemma AtLeastOnce(k: nat, n: nat)
    requires k > 0
    ensures k * n >= n
  {
  }

  function Index(hashIdx: int, bucketIdx: int, n: nat): int {
    hashIdx * n + bucketIdx
  }

  lemma NextIndex(h: nat, b: nat, n: nat)
    requires b < n
    ensures Index(0, 0, n) == 0
    ensures Index(h, b + 1, n) == Index(h, b, n) + 1
    ensures b + 1 == n ==> Index(h + 1, 0, n) == Index(h, b, n) + 1
  {
    assert (h + 1) * n == h * n + n;
  }

  lemma IndexBounds(h: nat, b: nat, m: nat, n: nat)
    requires b < n
    ensures Index(h, b, n) >= 0
    ensures h < m ==> Index(h, b, n) < m * n
    ensures h >= m ==> Index(h, b, n) >= m * n
    ensures Index(h, b, n) / n == h && Index(h, b, n) % n == b
  {
    DivModUnique(h * n + b, n, h, b);
    if h < m {
      AtLeastOnce(m - h, n);
      assert m * n == h * n + (m - h) * n;
    } else {
      assert h * n == m * n + (h - m) * n;
    }
  }

  /** The documented number of terms, hashCount times bucketCount, is right for exactly
      these tokens and counts. */
  lemma TermsOfOneToken(token: seq<Byte>, hashCount: nat, bucketCount: int)
    requires hashCount > 0
    ensures |Terms(token, hashCount, bucketCount)| == hashCount * bucketCount
       <==> (token != [] && bucketCount > 0) || (token == [] && hashCount * bucketCount == 1)
  {
    AtLeastOnce(hashCount, Buckets(bucketCount));
    if bucketCount <= 0 {
      assert hashCount * bucketCount <= 0;
    }
  }

  /** An empty token and two hash functions: one term instead of two. */
  lemma EmptyTokenFallsShort()
    ensures |Terms([], 2, 1)| == 1 < 2 * 1
  {
    TermsOfOneToken([], 2, 1);
  }

  function EmptyTokens(tokens: seq<seq<Byte>>): (n: nat)
    ensures n <= |tokens|
  {
    if tokens == [] then 0 else (if tokens[0] == [] then 1 else 0) + EmptyTokens(tokens[1..])
  }

  function PerToken(hashCount: nat, bucketCount: int): nat {
    hashCount * Buckets(bucketCount)
  }

  lemma TermsLength(token: seq<Byte>, hashCount: nat, bucketCount: int)
    ensures |Terms(token, hashCount, bucketCount)|
         == if token != [] || hashCount == 0 then PerToken(hashCount, bucketCount) else 1
  {
  }

  lemma {:induction false} TermsCounted(tokens: seq<seq<Byte>>, hashCount: nat, bucketCount: int)
    ensures |AllTerms(tokens, hashCount, bucketCount)|
         == Times(|tokens| - EmptyTokens(tokens), PerToken(hashCount, bucketCount))
            + if hashCount > 0 then EmptyTokens(tokens) else 0
  {
    hide PerToken, Terms, Times;
    var per := PerToken(hashCount, bucketCount);
    if tokens == [] {
      NoneTimes(per);
    } else {
      TermsCounted(tokens[1..], hashCount, bucketCount);
      TermsLength(tokens[0], hashCount, bucketCount);
      OneMore(|tokens[1..]| - EmptyTokens(tokens[1..]), per);
      NoHashes(bucketCount);
    }
  }

  /** The number of terms of a stream. */
  lemma TermCount(tokens: seq<seq<Byte>>, hashCount: nat, bucketCount: int)
    ensures |AllTerms(tokens, hashCount, bucketCount)|
         == (|tokens| - EmptyTokens(tokens)) * (hashCount * Buckets(bucketCount))
            + if hashCount > 0 then EmptyTokens(tokens) else 0
  {
    hide AllTerms, EmptyTokens, Buckets;
    TermsCounted(tokens, hashCount, bucketCount);
  }

  function Times(n: nat, per: nat): nat {
    n * per
  }

  lemma NoneTimes(per: nat)
    ensures Times(0, per) == 0
  {
  }

  lemma NoHashes(bucketCount: int)
    ensures PerToken(0, bucketCount) == 0
  {
  }

  lemma OneMore(n: nat, per: nat)
    ensures Times(n + 1, per) == per + Times(n, per)
  {
  }

  /** What is left of a token's terms before the given hash function and bucket. */
  function Tail(token: seq<Byte>, hashCount: nat, bucketCount: int, h: nat, b: nat): seq<string> {
    var terms := Terms(token, hashCount, bucketCount);
    var k := Index(h, b, Buckets(bucketCount));
    if 0 <= k < |terms| then terms[k..] else []
  }

  lemma TailStep(token: seq<Byte>, hashCount: nat, bucketCount: int, h: nat, b: nat)
    requires h < hashCount && b < Buckets(bucketCount) && (token == [] ==> h == b == 0)
    ensures var rest := if b + 1 < Buckets(bucketCount) then Tail(token, hashCount, bucketCount, h, b + 1)
                        else Tail(token, hashCount, bucketCount, h + 1, 0);
            Tail(token, hashCount, bucketCount, h, b) == [Term(token, h, b)] + rest
  {
    hide Term, Buckets, Index;
    var n := Buckets(bucketCount);
    IndexBounds(h, b, hashCount, n);
    NextIndex(h, b, n);
    var terms := Terms(token, hashCount, bucketCount);
    var k := Index(h, b, n);
    assert terms[k..] == [terms[k]] + terms[k + 1..];
  }

  lemma TailStart(token: seq<Byte>, hashCount: nat, bucketCount: int)
    ensures Tail(token, hashCount, bucketCount, 0, 0) == Terms(token, hashCount, bucketCount)
  {
  }

  lemma TailEnd(token: seq<Byte>, hashCount: nat, bucketCount: int, h: nat)
    requires h >= hashCount
    ensures Tail(token, hashCount, bucketCount, h, 0) == []
  {
    IndexBounds(h, 0, hashCount, Buckets(bucketCount));
    if hashCount > 0 {
      AtLeastOnce(hashCount, Buckets(bucketCount));
    }
  }

  lemma TailOfEmpty(hashCount: nat, bucketCount: int, h: nat, b: nat)
    requires b < Buckets(bucketCount) && h + b > 0
    ensures Tail([], hashCount, bucketCount, h, b) == []
  {
    if h > 0 {
      AtLeastOnce(h, Buckets(bucketCount));
    }
  }

  lemma DropFirst(term: string, tail: seq<string>, rest: seq<string>)
    ensures ([term] + tail + rest)[0] == term && ([term] + tail + rest)[1..] == tail + rest
  {
  }

  class MinHashFilter {
    const input: seq<seq<Byte>>
    const hashCount: int
    const bucketCount: int
    var read: nat
    var term: string
    var currentToken: seq<Byte>
    var hashIndex: nat
    var bucketIndex: nat

    ghost predicate Valid()
      reads this
    {
      && read <= |input| && bucketIndex < Buckets(bucketCount)
      && (hashIndex < hashCount || bucketIndex == 0)
    }

    /** The terms still to come. */
    ghost function Remaining(): seq<string>
      requires Valid() && hashCount >= 0
      reads this
    {
      (if currentToken == [] then [] else Tail(currentToken, hashCount, bucketCount, hashIndex, bucketIndex))
      + AllTerms(input[read..], hashCount, bucketCount)
    }

    constructor (input: seq<seq<Byte>>, hashCount: int, bucketCount: int)
      ensures Valid() && this.input == input && this.hashCount == hashCount && this.bucketCount == bucketCount
      ensures read == 0
      ensures hashCount >= 0 ==> Remaining() == AllTerms(input, hashCount, bucketCount)
    {
      this.input, this.hashCount, this.bucketCount := input, hashCount, bucketCount;
      read, term, currentToken, hashIndex, bucketIndex := 0, "", [], 0, 0;
    }

    /** Delivers the remaining terms one by one. Without hash functions every call
        consumes a token and still reports the end of the stream. */
    method IncrementToken() returns (ok: bool)
      requires Valid()
      modifies this
      ensures Valid()
      ensures hashCount <= 0 ==> !ok && read == if old(read) < |input| then old(read) + 1 else old(read)
      ensures hashCount > 0 ==> (ok <==> old(Remaining()) != [])
      ensures ok ==> hashCount > 0 && term == old(Remaining())[0] && Remaining() == old(Remaining())[1..]
    {
      hide Tail, Terms, AllTerms, Buckets, Term;
      if hashIndex < hashCount && currentToken != [] {
        ok := EmitNextHash();
        DropFirst(term, Tail(currentToken, hashCount, bucketCount, hashIndex, bucketIndex), AllTerms(input[read..], hashCount, bucketCount));
        return;
      }
      if hashCount > 0 && currentToken != [] {
        TailEnd(currentToken, hashCount, bucketCount, hashIndex);
      }
      if read == |input| {
        EndOfTerms();
        return false;
      }
      currentToken := input[read];
      read := read + 1;
      hashIndex := 0;
      bucketIndex := 0;
      if hashCount > 0 {
        NextTerms(input[read - 1..], hashCount, bucketCount);
        TailStart(currentToken, hashCount, bucketCount);
      }
      ok := EmitNextHash();
      if ok {
        DropFirst(term, Tail(currentToken, hashCount, bucketCount, hashIndex, bucketIndex), AllTerms(input[read..], hashCount, bucketCount));
        if currentToken == [] {
          TailOfEmpty(hashCount, bucketCount, hashIndex, bucketIndex);
        }
      }
    }

    method EmitNextHash() returns (ok: bool)
      requires bucketIndex < Buckets(bucketCount) && (hashIndex < hashCount || bucketIndex == 0)
      requires currentToken == [] ==> hashIndex == bucketIndex == 0
      modifies this`term, this`hashIndex, this`bucketIndex
      ensures ok <==> old(hashIndex) < hashCount
      ensures ok ==> hashIndex + bucketIndex > 0 && Tail(currentToken, hashCount, bucketCount, old(hashIndex), old(bucketIndex))
                     == [term] + Tail(currentToken, hashCount, bucketCount, hashIndex, bucketIndex)
      ensures bucketIndex < Buckets(bucketCount) && (hashIndex < hashCount || bucketIndex == 0)
    {
      hide Tail, Hash, ToText;
      if hashIndex >= hashCount {
        return false;
      }
      TailStep(currentToken, hashCount, bucketCount, hashIndex, bucketIndex);
      var hash := ComputeHash(currentToken, hashIndex, bucketIndex);
      term := HashToString(hash);
      bucketIndex := bucketIndex + 1;
      if bucketIndex >= bucketCount {
        bucketIndex := 0;
        hashIndex := hashIndex + 1;
      }
      return true;
    }

    lemma EndOfTerms()
      ensures hashCount >= 0 ==> AllTerms(input[|input|..], hashCount, bucketCount) == []
    {
    }
  }

  lemma NextTerms(tokens: seq<seq<Byte>>, hashCount: nat, bucketCount: int)
    requires tokens != []
    ensures AllTerms(tokens, hashCount, bucketCount)
         == Terms(tokens[0], hashCount, bucketCount) + AllTerms(tokens[1..], hashCount, bucketCount)
  {
  }
}
