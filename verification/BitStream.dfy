/** The bit stream of the BMC format: one byte of buffering over a stretch of memory, used in one direction. */
module BitStream {
  import opened Bytes
  import opened BitFields

  class BitStream {
    const buf: array<byte>
    const start: nat
    const dataEnd: nat
    var data: nat      // next byte to load or store
    var numBits: nat   // bits in curByte
    var curByte: byte
    ghost var sent: bits  // every bit given to WriteBit so far

    /** Initialisation leaves `curByte` as it was, whatever that is. */
    constructor (buf: array<byte>, from: nat, length: nat, garbage: byte)
      requires from + length <= buf.Length
      ensures this.buf == buf && start == from && dataEnd == from + length
      ensures Reading() && Unread() == Unpack(buf[from..from + length])
      ensures Writing() && sent == []
    {
      hide Unpack, Pending, LowBits, Head, Tail, Digit;
      this.buf := buf;
      start, data, dataEnd := from, from, from + length;
      numBits, curByte, sent := 0, garbage, [];
      new;
      NoBits();
      PendingNone(garbage);
      assert buf[from..from] == [];
      Associate([], Unpack(buf[from..from + length]), []);
    }

    /** The memory around the stream's own. */
    ghost function Outside(): (seq<byte>, seq<byte>)
      reads buf
    {
      if start <= dataEnd <= buf.Length then (buf[..start], buf[dataEnd..]) else ([], [])
    }

    // ---------- reading ----------

    ghost predicate Reading()
      reads this
    {
      start <= data <= dataEnd <= buf.Length && numBits < 8
    }

    /** The bits not yet read. */
    ghost function Unread(): bits
      requires Reading()
      reads this, buf
    {
      LowBits(curByte, numBits) + Unpack(buf[data..dataEnd])
    }

    method ReadBit() returns (bit: nat)
      requires Reading()
      modifies this
      ensures Reading() && sent == old(sent)
      ensures bit == Digit(Head(old(Unread()))) && Unread() == Tail(old(Unread()))
    {
      hide Unpack, LowBits, Head, Tail, Digit;
      NoBits();
      if numBits == 0 {
        if data == dataEnd {
          assert buf[data..dataEnd] == [];
          assert Unread() == [];
          return 0;
        }
        NextByte(buf[data..dataEnd]);
        assert buf[data..dataEnd][1..] == buf[data + 1..dataEnd];
        curByte := buf[data];
        data := data + 1;
        numBits := 8;
      }
      TakeBit(curByte, numBits, Unpack(buf[data..dataEnd]));
      bit := curByte % 2;
      curByte := curByte / 2;
      numBits := numBits - 1;
    }

    method ReadBits(n: nat) returns (v: nat)
      requires Reading()
      modifies this
      ensures Reading() && sent == old(sent)
      ensures (v, Unread()) == Get(old(Unread()), n)
    {
      hide LowBits, Unpack, Head, Tail;
      v := 0;
      for i := 0 to n
        invariant Reading() && sent == old(sent)
        invariant (v, Unread()) == Get(old(Unread()), i)
      {
        var b := ReadBit();
        v := 2 * v + b;
      }
    }

    /** The end test looks at whole bytes only: it holds while up to seven bits are still unread. */
    method Eof() returns (eof: bool)
      requires Reading()
      ensures eof <==> |Unread()| < 8
    {
      eof := data == dataEnd;
    }

    // ---------- writing ----------

    /** The bits held: the bytes stored, then what is waiting in `curByte`. */
    ghost function Held(): bits
      requires start <= data <= buf.Length && numBits <= 8
      reads this, buf
    {
      Unpack(buf[start..data]) + Pending(curByte, numBits)
    }

    /** Everything sent is held until the memory is full; what comes after that is dropped. */
    ghost predicate Writing()
      reads this, buf
    {
      start <= data <= dataEnd <= buf.Length && numBits < 8 &&
      (data == dataEnd ==> numBits == 0) &&
      Held() == Stored(sent, 8 * (dataEnd - start)) &&
      (data < dataEnd ==> |sent| == 8 * (data - start) + numBits)
    }

    method PushBit(bit: nat)
      requires Writing() && bit <= 1
      modifies this, buf
      ensures Writing() && sent == old(sent) + [bit == 1]
      ensures Outside() == old(Outside())
    {
      hide Unpack, Pending;
      FullStays(sent, bit == 1, 8 * (dataEnd - start));
      sent := sent + [bit == 1];
      if data == dataEnd {
        return;
      }
      PendingPush(curByte, numBits, bit);
      ghost var stored, waiting := Unpack(buf[start..data]), Pending(curByte, numBits);
      curByte := curByte / 2 + 128 * bit;
      numBits := numBits + 1;
      assert stored + (waiting + [bit == 1]) == (stored + waiting) + [bit == 1];

      if numBits == 8 {
        StoreByte();
      }
    }

    /** A full `curByte` goes to memory. */
    method StoreByte()
      requires start <= data < dataEnd <= buf.Length && numBits == 8
      modifies this, buf
      ensures data == old(data) + 1 && numBits == 0 && sent == old(sent)
      ensures Held() == old(Held())
      ensures Outside() == old(Outside())
    {
      hide Unpack, LowBits;
      ghost var before := buf[start..data];
      buf[data] := curByte;
      data := data + 1;
      numBits := 0;
      assert buf[start..data] == before + [curByte];
      UnpackPush(before, curByte);
    }

    /** What has been sent, with more bits still to come. */
    ghost function SentThen(k: bits): bits
      reads this
    {
      sent + k
    }

    /** `k` stands for the bits the caller means to send afterwards. */
    method WriteBit(bit: nat, ghost k: bits)
      requires Writing() && bit <= 1
      modifies this, buf
      ensures Writing() && SentThen(k) == old(SentThen(Put(1, bit, k)))
      ensures Outside() == old(Outside())
    {
      hide Writing, Outside, Put;
      Sending(sent, bit, k);
      PushBit(bit);
    }

    method WriteBits(n: nat, value: nat, ghost k: bits)
      requires Writing()
      modifies this, buf
      ensures Writing() && SentThen(k) == old(SentThen(Put(n, value, k)))
      ensures Outside() == old(Outside())
    {
      hide Put, Shr, Writing, Outside;
      ghost var field := Put(n, value, []);
      var v := value;
      for i := 0 to n
        invariant Writing() && v == Shl(value, i) && sent == old(sent) + field[..i]
        invariant Outside() == old(Outside())
      {
        ShiftBoth(value, n - 1, i);
        PutAt(n, value, i);
        PushBit(Shr(v, n - 1) % 2);
        assert field[..i] + [field[i]] == field[..i + 1];
        v := 2 * v;
      }
      assert field[..n] == field;
      PutPrefix(n, value, k);
      assert (old(sent) + field) + k == old(sent) + (field + k);
    }

    /** Pads the last byte with zeros. */
    method Flush()
      requires Writing()
      modifies this, buf
      ensures start <= data <= dataEnd && sent == old(sent)
      ensures Unpack(buf[start..data]) == Stored(sent + Zeros(Padding(|sent|)), 8 * (dataEnd - start))
      ensures Outside() == old(Outside())
    {
      hide LowBits, Unpack, Shr, Zeros, Pending, Padding, Stored;
      PendingNone(curByte);
      if data == dataEnd || numBits == 0 {
        Associate(Unpack(buf[start..data]), [], []);
        Unpadded(sent, 8 * (dataEnd - start), if data == dataEnd then 8 * (dataEnd - start) else |sent|);
      } else {
        Padded(sent, data - start, numBits, 8 * (dataEnd - start));
        PadByte();
      }
    }

    /** The last byte goes to memory with its bits moved down. */
    method PadByte()
      requires start <= data < dataEnd <= buf.Length && numBits < 8
      modifies this, buf
      ensures data == old(data) + 1 && numBits == 0 && sent == old(sent)
      ensures Unpack(buf[start..data]) == old(Held()) + Zeros(8 - old(numBits))
      ensures Outside() == old(Outside())
    {
      hide LowBits, Unpack, Shr, Zeros, Pending;
      ghost var whole, top := buf[start..data], Pending(curByte, numBits);
      PendingDown(curByte, numBits);
      Associate(Unpack(whole), top, Zeros(8 - numBits));
      curByte := Shr(curByte, 8 - numBits);
      UnpackPush(whole, curByte);
      buf[data] := curByte;
      data := data + 1;
      assert buf[start..data] == whole + [curByte];
      numBits := 0;
    }
  }

  /** The `n` bits at the top of a byte that is being filled. */
  lemma NoBits()
    ensures forall b: nat :: LowBits(b, 0) == []
    ensures Unpack([]) == [] && Digit(Head([])) == 0 && Tail([]) == []
  {}

  lemma NextByte(s: seq<byte>)
    requires s != []
    ensures [] + Unpack(s) == LowBits(s[0], 8) + Unpack(s[1..])
  {
    hide LowBits;
  }

  /** Taking the lowest bit of the current byte. */
  lemma TakeBit(b: nat, n: nat, u: bits)
    requires n > 0
    ensures var s := LowBits(b, n) + u; Digit(Head(s)) == b % 2 && Tail(s) == LowBits(b / 2, n - 1) + u
  {
    hide Unpack;
  }

  function Pending(b: byte, n: nat): (r: bits)
    requires n <= 8
    ensures |r| == n
  {
    LowBits(b, 8)[8 - n..]
  }

  lemma PendingNone(b: byte)
    ensures Pending(b, 0) == []
  {}

  /** Moved down by the shift, the waiting bits are the first of a byte. */
  lemma PendingDown(b: byte, n: nat)
    requires n <= 8
    ensures Shr(b, 8 - n) < 256 && LowBits(Shr(b, 8 - n), 8) == Pending(b, n) + Zeros(8 - n)
  {
    hide LowBits;
    ShiftDown(b, 8 - n);
  }

  lemma PaddingOf(q: nat, r: nat)
    requires 0 < r < 8
    ensures Padding(8 * q + r) == 8 - r
  {}

  lemma PendingPush(b: byte, n: nat, bit: nat)
    requires n < 8 && bit <= 1
    ensures Pending(b / 2 + 128 * bit, n + 1) == Pending(b, n) + [bit == 1]
  {
    hide LowBits;
    ShiftIn(b, 7, 128, bit == 1);
    assert 128 * bit == if bit == 1 then 128 else 0;
  }

  /** What fits. */
  function Stored(s: bits, cap: nat): bits {
    if |s| <= cap then s else s[..cap]
  }

  lemma FullStays(s: bits, b: bool, cap: nat)
    ensures |s| >= cap ==> Stored(s + [b], cap) == Stored(s, cap)
  {
    if |s| >= cap {
      assert (s + [b])[..cap] == s[..cap];
      assert s[..|s|] == s;
    }
  }

  /** The zeros that complete the last byte of `n` bits. */
  function Padding(n: nat): (p: nat)
    ensures p < 8 && (n + p) % 8 == 0
  {
    (8 - n % 8) % 8
  }

  lemma Sending(s: bits, bit: nat, k: bits)
    requires bit <= 1
    ensures (s + [bit == 1]) + k == s + Put(1, bit, k)
  {
    assert Put(1, bit, k) == Put(0, bit / 2, [bit % 2 == 1] + k);
    assert (s + [bit == 1]) + k == s + ([bit == 1] + k);
  }

  /** Bits that end inside a byte of the memory are padded to its end. */
  lemma Padded(s: bits, q: nat, r: nat, cap: nat)
    requires |s| == 8 * q + r && 0 < r < 8 && 8 * q + 8 <= cap
    ensures Stored(s, cap) == s && Stored(s + Zeros(Padding(|s|)), cap) == s + Zeros(8 - r)
  {
    PaddingOf(q, r);
  }

  lemma Unpadded(s: bits, cap: nat, n: nat)
    requires n % 8 == 0 && |Stored(s, cap)| == n && cap % 8 == 0 && (n < cap ==> |s| == n)
    ensures Stored(s + Zeros(Padding(|s|)), cap) == Stored(s, cap)
  {
    if |s| <= cap {
      assert s + Zeros(0) == s;
      if |s| < n {} else { assert Padding(|s|) == 0; }
    } else {
      assert (s + Zeros(Padding(|s|)))[..cap] == s[..cap];
    }
  }

  /** Through memory: a run of fields written and flushed, when it fits, is read back whatever the flush padded it
      with. */
  lemma FieldsThroughMemory(fs: seq<Field>, stored: seq<byte>, cap: nat)
    requires Unpack(stored) == Stored(PutAll(fs, []) + Zeros(Padding(|PutAll(fs, [])|)), 8 * cap)
    requires |PutAll(fs, [])| <= 8 * cap
    ensures GetAll(fs, Unpack(stored)).0 == LowParts(fs)
    ensures AllFit(fs) ==> GetAll(fs, Unpack(stored)).0 == Values(fs)
  {
    hide PutAll, GetAll, LowParts, Values, AllFit, Unpack;
    var pad := Zeros(Padding(|PutAll(fs, [])|));
    PutAllPrefix(fs, pad);
    FieldsReadBack(fs, pad);
  }

  lemma {:induction false} PutAllPrefix(fs: seq<Field>, k: bits)
    ensures PutAll(fs, k) == PutAll(fs, []) + k
  {
    hide Put;
    if fs != [] {
      var f, rest := fs[0], PutAll(fs[1..], []);
      PutAllPrefix(fs[1..], k);
      PutPrefix(f.width, f.value, rest + k);
      PutPrefix(f.width, f.value, rest);
      assert Put(f.width, f.value, []) + (rest + k) == (Put(f.width, f.value, []) + rest) + k;
    }
  }
}
