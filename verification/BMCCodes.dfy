/** The variable-length codes of the BMC format, written as decision trees over bit fields. */
module BMCCodes {
  import opened Bytes
  import opened BitFields

  const MAX_LENGTH := 256
  const MAX_OFFSET := 8191

  /** The code of a copy length 2..256, in front of `k`. */
  function PutLength(n: nat, k: bits): bits
    requires 2 <= n <= MAX_LENGTH
  {
    if n < 4 then Put(2, n - 2, k)
    else if n < 6 then Put(2, 2, Put(1, n - 4, k))
    else Put(2, 3, PutMidLength(n, k))
  }

  /** The lengths from 6 on, behind their prefix of two ones. */
  function PutMidLength(n: nat, k: bits): bits
    requires 6 <= n <= MAX_LENGTH
  {
    if n == 6 then Put(2, 0, k)
    else if n == 7 then Put(2, 2, Put(1, 0, k))
    else if n < 10 then Put(2, 1, Put(1, n - 8, k))
    else if n < 12 then Put(2, 2, Put(1, 1, Put(1, n - 10, k)))
    else Put(2, 3, PutLongLength(n, k))
  }

  /** The lengths from 12 on, behind two more. */
  function PutLongLength(n: nat, k: bits): bits
    requires 12 <= n <= MAX_LENGTH
  {
    if n < 14 then Put(3, n - 12, k)
    else if n == 14 then Put(3, 5, k)
    else if n == 15 then Put(3, 7, Put(1, 0, k))
    else if n < 18 then Put(3, 3, Put(1, n - 16, k))
    else if n < 20 then Put(3, 6, Put(1, 1, Put(1, n - 18, k)))
    else if n < 24 then Put(3, 2, Put(2, n - 20, k))
    else if n < 32 then Put(3, 4, Put(3, n - 24, k))
    else if n < 64 then Put(3, 6, Put(1, 0, Put(5, n - 32, k)))
    else if n < 128 then Put(3, 7, Put(1, 1, Put(1, 0, Put(6, n - 64, k))))
    else if n < 256 then Put(3, 7, Put(1, 1, Put(1, 1, Put(1, 0, Put(7, n - 128, k)))))
    else Put(3, 7, Put(1, 1, Put(1, 1, Put(1, 1, k))))
  }

  function Plus(r: (nat, bits), n: nat): (nat, bits) {
    (r.0 + n, r.1)
  }

  function GetLength(s: bits): (nat, bits) {
    var (a, s) := Get(s, 2);
    if a == 0 then (2, s)
    else if a == 1 then (3, s)
    else if a == 2 then Plus(Get(s, 1), 4)
    else
      var (b, s) := Get(s, 2);
      if b == 0 then (6, s)
      else if b == 1 then Plus(Get(s, 1), 8)
      else if b == 2 then
        var (c, s) := Get(s, 1);
        if c == 1 then Plus(Get(s, 1), 10) else (7, s)
      else GetLongLength(s)
  }

  function GetLongLength(s: bits): (nat, bits) {
    var (c, s) := Get(s, 3);
    if c == 0 then (12, s)
    else if c == 1 then (13, s)
    else if c == 2 then Plus(Get(s, 2), 20)
    else if c == 3 then Plus(Get(s, 1), 16)
    else if c == 4 then Plus(Get(s, 3), 24)
    else if c == 5 then (14, s)
    else if c == 6 then
      var (d, s) := Get(s, 1);
      if d == 1 then Plus(Get(s, 1), 18) else Plus(Get(s, 5), 32)
    else GetTopLength(s)
  }

  function GetTopLength(s: bits): (nat, bits) {
    var (d, s) := Get(s, 1);
    if d == 1 then
      var (e, s) := Get(s, 1);
      if e == 1 then
        var (f, s) := Get(s, 1);
        if f == 1 then (256, s) else Plus(Get(s, 7), 128)
      else Plus(Get(s, 6), 64)
    else (15, s)
  }

  /** The code of a copy offset 0..8191, in front of `k`. */
  function PutOffset(n: nat, k: bits): bits
    requires n <= MAX_OFFSET
  {
    if n < 16 then Put(3, 7, PutNearOffset(n, k))
    else if n < 32 then Put(3, 6, Put(1, 1, Put(4, n - 16, k)))
    else if n < 64 then Put(3, 6, Put(1, 0, Put(5, n - 32, k)))
    else if n < 128 then Put(3, 3, Put(6, n - 64, k))
    else if n < 256 then Put(3, 4, Put(7, n - 128, k))
    else if n < 512 then Put(3, 2, Put(8, n - 256, k))
    else if n < 1024 then Put(3, 1, Put(9, n - 512, k))
    else if n < 2048 then Put(3, 0, Put(10, n - 1024, k))
    else if n < 4096 then Put(3, 5, Put(1, 0, Put(11, n - 2048, k)))
    else Put(3, 5, Put(1, 1, Put(12, n - 4096, k)))
  }

  /** The offsets below 16, behind their prefix of three ones. */
  function PutNearOffset(n: nat, k: bits): bits
    requires n < 16
  {
    if n < 2 then Put(2, 0, Put(1, n, k))
    else if n == 2 then Put(2, 2, Put(1, 1, k))
    else if n == 3 then Put(2, 3, Put(2, 2, k))
    else if n < 6 then Put(2, 2, Put(1, 0, Put(1, n - 4, k)))
    else if n < 10 then Put(2, 1, Put(2, n - 6, k))
    else if n < 12 then Put(2, 3, Put(2, 3, Put(1, n - 10, k)))
    else if n < 14 then Put(2, 3, Put(2, 0, Put(1, n - 12, k)))
    else Put(2, 3, Put(2, 1, Put(1, n - 14, k)))
  }

  function GetOffset(s: bits): (nat, bits) {
    var (a, s) := Get(s, 3);
    if a == 0 then Plus(Get(s, 10), 1024)
    else if a == 1 then Plus(Get(s, 9), 512)
    else if a == 2 then Plus(Get(s, 8), 256)
    else if a == 3 then Plus(Get(s, 6), 64)
    else if a == 4 then Plus(Get(s, 7), 128)
    else if a == 5 then
      var (b, s) := Get(s, 1);
      if b == 1 then Plus(Get(s, 12), 4096) else Plus(Get(s, 11), 2048)
    else if a == 6 then
      var (b, s) := Get(s, 1);
      if b == 1 then Plus(Get(s, 4), 16) else Plus(Get(s, 5), 32)
    else GetNearOffset(s)
  }

  function GetNearOffset(s: bits): (nat, bits) {
    var (b, s) := Get(s, 2);
    if b == 0 then Get(s, 1)
    else if b == 1 then Plus(Get(s, 2), 6)
    else if b == 2 then
      var (c, s) := Get(s, 1);
      if c == 1 then (2, s) else Plus(Get(s, 1), 4)
    else
      var (c, s) := Get(s, 2);
      if c == 0 then Plus(Get(s, 1), 12)
      else if c == 1 then Plus(Get(s, 1), 14)
      else if c == 2 then (3, s)
      else Plus(Get(s, 1), 10)
  }

  // ---------- read after write ----------

  lemma LengthReadsBack(n: nat, k: bits)
    requires 2 <= n <= MAX_LENGTH
    ensures GetLength(PutLength(n, k)) == (n, k)
  {
    hide Get, Put;
    Powers();
  }

  lemma OffsetReadsBack(n: nat, k: bits)
    requires n <= MAX_OFFSET
    ensures GetOffset(PutOffset(n, k)) == (n, k)
  {
    hide Get, Put;
    Powers();
  }

  lemma Powers()
    ensures Pow2(1) == 2 && Pow2(2) == 4 && Pow2(3) == 8 && Pow2(4) == 16 && Pow2(5) == 32 && Pow2(6) == 64
    ensures Pow2(7) == 128 && Pow2(8) == 256 && Pow2(9) == 512 && Pow2(10) == 1024 && Pow2(11) == 2048
    ensures Pow2(12) == 4096
  {}

  // ---------- the codes are complete: every long enough bit string starts with exactly one of them ----------

  lemma LengthRange(s: bits)
    ensures 2 <= GetLength(s).0 <= MAX_LENGTH
  {
    hide Get;
    Powers();
  }

  lemma OffsetRange(s: bits)
    ensures GetOffset(s).0 <= MAX_OFFSET
  {
    hide Get;
    Powers();
  }

  /** What stands behind a code does not change its bits. */
  lemma LengthSuffix(n: nat, k: bits, z: bits)
    requires 2 <= n <= MAX_LENGTH
    ensures PutLength(n, k + z) == PutLength(n, k) + z
  {
    hide Put, PutLength;
    LengthThen(n, k, z);
  }

  lemma LengthThen(n: nat, k: bits, z: bits)
    requires 2 <= n <= MAX_LENGTH
    ensures PutLength(n, Then(k, z)) == Then(PutLength(n, k), z)
  {
    hide Put, Then, Get, Pow2;
    PutThens(z);
  }

  lemma NearOffsetThen(n: nat, k: bits, z: bits)
    requires n < 16
    ensures PutNearOffset(n, Then(k, z)) == Then(PutNearOffset(n, k), z)
  {
    hide Put, Then, Get, Pow2;
    PutThens(z);
  }

  lemma OffsetThen(n: nat, k: bits, z: bits)
    requires n <= MAX_OFFSET
    ensures PutOffset(n, Then(k, z)) == Then(PutOffset(n, k), z)
  {
    hide Put, Then, Get, Pow2, PutNearOffset;
    PutThens(z);
    if n < 16 { NearOffsetThen(n, k, z); }
  }

  lemma OffsetSuffix(n: nat, k: bits, z: bits)
    requires n <= MAX_OFFSET
    ensures PutOffset(n, k + z) == PutOffset(n, k) + z
  {
    hide Put, PutOffset;
    OffsetThen(n, k, z);
  }

  /** Bit strings alike hold the same code. */
  lemma LengthAlike(s: bits, t: bits)
    requires Alike(s, t)
    ensures GetLength(s).0 == GetLength(t).0 && Alike(GetLength(s).1, GetLength(t).1)
  {
    hide Get, Alike;
    GetAlikes();
  }

  lemma OffsetAlike(s: bits, t: bits)
    requires Alike(s, t)
    ensures GetOffset(s).0 == GetOffset(t).0 && Alike(GetOffset(s).1, GetOffset(t).1)
  {
    hide Get, Alike;
    GetAlikes();
  }

  /** Writing a number just read reproduces exactly the bits consumed, when the whole code was there. */
  lemma LengthWritesBack(s: bits)
    requires 2 <= GetLength(s).0 <= MAX_LENGTH && |PutLength(GetLength(s).0, [])| <= |s|
    ensures var (n, k) := GetLength(s); PutLength(n, k) == s
  {
    hide Get, Put, GetLength, PutLength, Alike;
    var n, z := GetLength(s).0, Zeros(17);
    AlikeZeros(s, 17);
    LengthAlike(s, s + z);
    LongLengthBack(s + z);
    var k := GetLength(s + z).1;
    LengthSuffix(n, [], k);
    assert [] + k == k;
    var c := PutLength(n, []);
    CodeInFront(c, k, s, z);
    LengthSuffix(n, [], s[|c|..]);
    assert [] + s[|c|..] == s[|c|..];
    LengthReadsBack(n, s[|c|..]);
  }

  lemma CodeInFront(c: bits, k: bits, s: bits, z: bits)
    requires c + k == s + z && |c| <= |s|
    ensures s == c + s[|c|..]
  {
    assert forall i :: 0 <= i < |c| ==> c[i] == (c + k)[i] == (s + z)[i] == s[i];
  }

  lemma LongLengthBack(s: bits)
    requires |s| >= 17
    ensures var (n, k) := GetLength(s); 2 <= n <= MAX_LENGTH && PutLength(n, k) == s
  {
    hide Get, Put, GetLongLength, PutLongLength;
    Powers();
    PutGet(s, 2);
    var (a, s1) := Get(s, 2);
    if a == 2 {
      PutGet(s1, 1);
    } else if a == 3 {
      PutGet(s1, 2);
      var (b, s2) := Get(s1, 2);
      if b == 3 {
        LongLengthWritesBack(s2);
      } else {
        PutGet(s2, 1);
        PutGet(Get(s2, 1).1, 1);
      }
    }
  }

  lemma LongLengthWritesBack(s: bits)
    requires |s| >= 13
    ensures var (n, k) := GetLongLength(s); 12 <= n <= MAX_LENGTH && PutLongLength(n, k) == s
  {
    hide Get, Put;
    Powers();
    PutGet(s, 3);
    var (c, s1) := Get(s, 3);
    if c < 6 {
      PutGet(s1, if c == 2 then 2 else if c == 4 then 3 else 1);
    } else {
      PutGet(s1, 1);
      var (d, s2) := Get(s1, 1);
      if c == 6 {
        PutGet(s2, if d == 1 then 1 else 5);
      } else {
        PutGet(s2, 1);
        var (e, s3) := Get(s2, 1);
        PutGet(s3, if e == 1 then 1 else 6);
        if e == 1 { PutGet(Get(s3, 1).1, 7); }
      }
    }
  }

  lemma OffsetWritesBack(s: bits)
    requires GetOffset(s).0 <= MAX_OFFSET && |PutOffset(GetOffset(s).0, [])| <= |s|
    ensures var (n, k) := GetOffset(s); PutOffset(n, k) == s
  {
    hide Get, Put, GetOffset, PutOffset, Alike;
    var n, z := GetOffset(s).0, Zeros(16);
    AlikeZeros(s, 16);
    OffsetAlike(s, s + z);
    LongOffsetBack(s + z);
    var k := GetOffset(s + z).1;
    OffsetSuffix(n, [], k);
    assert [] + k == k;
    var c := PutOffset(n, []);
    CodeInFront(c, k, s, z);
    OffsetSuffix(n, [], s[|c|..]);
    assert [] + s[|c|..] == s[|c|..];
    OffsetReadsBack(n, s[|c|..]);
  }

  lemma LongOffsetBack(s: bits)
    requires |s| >= 16
    ensures var (n, k) := GetOffset(s); n <= MAX_OFFSET && PutOffset(n, k) == s
  {
    hide Get, Put, GetNearOffset, PutNearOffset;
    Powers();
    PutGet(s, 3);
    var (a, s1) := Get(s, 3);
    if a < 5 {
      PutGet(s1, if a == 0 then 10 else if a == 1 then 9 else if a == 2 then 8 else if a == 3 then 6 else 7);
    } else if a < 7 {
      PutGet(s1, 1);
      var (b, s2) := Get(s1, 1);
      PutGet(s2, if a == 5 then 11 + b else 5 - b);
    } else {
      NearOffsetWritesBack(s1);
    }
  }

  lemma NearOffsetWritesBack(s: bits)
    requires |s| >= 13
    ensures var (n, k) := GetNearOffset(s); n < 16 && PutNearOffset(n, k) == s
  {
    hide Get, Put;
    Powers();
    PutGet(s, 2);
    var (b, s1) := Get(s, 2);
    if b < 2 {
      PutGet(s1, 1 + b);
    } else {
      PutGet(s1, b - 1);
      PutGet(Get(s1, b - 1).1, 1);
    }
  }

  // ---------- code lengths ----------

  lemma LengthCost(n: nat, k: bits)
    requires 2 <= n <= MAX_LENGTH
    ensures |k| + 2 <= |PutLength(n, k)| <= |k| + (if n < 4 then 2 else if n < 6 then 3 else 17)
  {
    hide Put;
  }

  lemma OffsetCost(n: nat, k: bits)
    requires n <= MAX_OFFSET
    ensures |k| + 6 <= |PutOffset(n, k)| <= |k| + 16
  {
    hide Put;
  }

  lemma CodeLengths(n: nat, k: bits, k': bits)
    requires 2 <= n <= MAX_LENGTH
    ensures |PutLength(n, k)| - |k| == |PutLength(n, k')| - |k'|
  {
    hide Put;
  }

  lemma OffsetLengths(n: nat, k: bits, k': bits)
    requires n <= MAX_OFFSET
    ensures |PutOffset(n, k)| - |k| == |PutOffset(n, k')| - |k'|
  {
    hide Put;
  }
}
