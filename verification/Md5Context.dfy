/** The MD5 context of mkcrypt.c: a state, a count of bits and a buffer for the bytes that do not yet
    fill a block. Pieces of any length give the digest of their concatenation. */
module Md5Context {
  import opened Md5Definition
  import opened Md5

  const BLOCK: nat := 64

  /** The part of a message that fills whole blocks. */
  function Whole(length: nat): (k: nat)
    ensures k <= length && k % 64 == 0 && length - k == length % 64
  {
    length - length % 64
  }

  lemma RemainderIs(x: nat, q: nat, r: nat)
    requires x == q * TWO_64 + r && r < TWO_64
    ensures x % TWO_64 == r
  {
    var d := x / TWO_64;
    assert x == d * TWO_64 + x % TWO_64;
    assert (d - q) * TWO_64 == r - x % TWO_64;
  }

  /** The bit count says how many bytes the buffer holds even after it has wrapped round. */
  lemma CountGivesFill(length: nat)
    ensures (8 * length % TWO_64) / 8 % 64 == length % 64
  {
    var q := 8 * length / TWO_64;
    assert 8 * length % TWO_64 == 8 * (length - q * (TWO_64 / 8));
    assert (length - q * (TWO_64 / 8)) % 64 == length % 64;
  }

  lemma CountAdds(length: nat, more: nat)
    ensures (8 * length % TWO_64 + 8 * more % TWO_64) % TWO_64 == 8 * (length + more) % TWO_64
  {
    var a, b := 8 * length, 8 * more;
    var sum := a % TWO_64 + b % TWO_64;
    var q := a / TWO_64 + b / TWO_64 + sum / TWO_64;
    RemainderIs(a + b, q, sum % TWO_64);
  }

  class Context {
    const state: array<bv32>
    var count: nat
    const buffer: array<Byte>

    ghost predicate Valid()
      reads this
    {
      state.Length == 4 && buffer.Length == 64 && count < TWO_64
    }

    /** The context stands for the bytes of `message`. */
    ghost predicate Holds(message: seq<Byte>)
      reads this, state, buffer
    {
      && Valid()
      && count == 8 * |message| % TWO_64
      && InState(state) == Blocks(INITIAL, message[..Whole(|message|)])
      && buffer[..|message| % 64] == message[Whole(|message|)..]
    }

    constructor ()
      ensures Holds([]) && fresh(state) && fresh(buffer)
    {
      state := new bv32[4];
      buffer := new Byte[64];
      count := 0;
      new;
      Init();
    }

    /** MD5Init */
    method Init()
      requires Valid()
      modifies this, state
      ensures Holds([])
    {
      count := 0;
      state[0] := 0x67452301;
      state[1] := 0xefcdab89;
      state[2] := 0x98badcfe;
      state[3] := 0x10325476;
    }

    /** memcpy(ctx->buffer + have, input, len) */
    method Store(have: nat, input: seq<Byte>)
      requires Valid() && have + |input| <= 64
      modifies buffer
      ensures buffer[..have] == old(buffer[..have])
      ensures buffer[have..have + |input|] == input
    {
      forall i | 0 <= i < |input| {
        buffer[have + i] := input[i];
      }
    }

    /** The state covers the first `done` bytes. */
    ghost predicate Covers(all: seq<Byte>, done: nat)
      reads this, state
    {
      Valid() && done % 64 == 0 && done <= |all| && InState(state) == Blocks(INITIAL, all[..done])
    }

    method TransformNext(block: seq<Byte>, ghost all: seq<Byte>, ghost done: nat)
      requires Covers(all, done) && done + 64 <= |all| && block == all[done..done + 64]
      modifies state
      ensures Covers(all, done + 64)
    {
      NextBlock(all, done);
      hide Blocks, Compress;
      Transform(state, block);
    }

    /** The loop over the blocks that lie in the input. */
    method TransformInput(input: seq<Byte>, ghost all: seq<Byte>, ghost start: nat) returns (rest: seq<Byte>)
      requires Covers(all, start) && input == all[start..]
      modifies state
      ensures Covers(all, Whole(|all|)) && rest == all[Whole(|all|)..]
    {
      hide Blocks, Compress, InState;
      rest := input;
      ghost var done: nat := start;
      while |rest| >= BLOCK
        invariant Covers(all, done) && rest == all[done..]
      {
        TransformNext(rest[..BLOCK], all, done);
        done := done + 64;
        rest := rest[BLOCK..];
      }
      assert done == Whole(|all|);
    }

    /** MD5Update */
    method Update(input: seq<Byte>, ghost message: seq<Byte>)
      requires Holds(message)
      modifies this, state, buffer
      ensures Holds(message + input)
    {
      hide Blocks, Compress, InState, Whole;
      CountGivesFill(|message|);
      CountAdds(|message|, |input|);
      var have := count / 8 % BLOCK;
      var need := BLOCK - have;
      count := (count + 8 * |input| % TWO_64) % TWO_64;
      ghost var all := message + input;
      ghost var done := Whole(|message|);
      assert all[..done] == message[..done];
      var rest := input;
      if |rest| >= need {
        LongInput(message, input);
        if have != 0 {
          Store(have, rest[..need]);
          JoinBuffer(buffer[..], buffer[..have], rest[..need]);
          TransformNext(buffer[..], all, done);
          done := done + 64;
          rest := rest[need..];
          have := 0;
        }
        rest := TransformInput(rest, all, done);
      } else {
        ShortInput(message, input);
      }
      if |rest| != 0 {
        Store(have, rest);
        JoinBuffer(buffer[..have + |rest|], buffer[..have], rest);
      }
    }

    /** MD5Pad: at most one block of padding and then the length. Afterwards the buffer is empty and the
        state covers the padded message. */
    method Pad(ghost message: seq<Byte>)
      requires Holds(message)
      modifies this, state, buffer
      ensures Holds(Padded(message)) && InState(state) == Blocks(INITIAL, Padded(message))
    {
      hide Blocks, InState, Zeros, Padded, Padding;
      CountGivesFill(|message|);
      var bytes := Put64(count);
      var padlen := BLOCK - count / 8 % BLOCK;
      if padlen < 1 + 8 {
        padlen := padlen + BLOCK;
      }
      PaddingSplits(message, padlen);
      assert 0 < padlen - 8 <= |PADDING|;
      Update(PADDING[..padlen - 8], message);
      Update(bytes, message + PADDING[..padlen - 8]);
      assert Padded(message)[..Whole(|Padded(message)|)] == Padded(message);
    }

    /** The loop of MD5Final. */
    method PutState(digest: array<Byte>)
      requires Valid() && digest.Length == 16
      modifies digest
      ensures digest[..] == Output(InState(state))
    {
      hide WordBytes, Output;
      var i := 0;
      ghost var w := InState(state);
      while i < 4
        invariant 0 <= i <= 4
        invariant digest[..4 * i] == Output(w)[..4 * i]
      {
        OutputGrows(w, i);
        assert state[i] == WordNumber(w, i);
        Put32(digest, 4 * i, state[i]);
        JoinBuffer(digest[..4 * (i + 1)], digest[..4 * i], digest[4 * i..4 * i + 4]);
        i := i + 1;
      }
      assert digest[..] == digest[..16] && Output(w)[..16] == Output(w);
    }

    /** MD5Final. With nowhere to put the digest the context is padded and left as it is. */
    method Final(digest: array?<Byte>, ghost message: seq<Byte>)
      requires Holds(message) && (digest != null ==> digest.Length == 16 && digest != buffer)
      modifies this, state, buffer, digest
      ensures digest != null ==> digest[..] == Digest(message)
      ensures digest != null ==> count == 0 && forall i :: 0 <= i < 4 ==> state[i] == 0
      ensures digest != null ==> forall i :: 0 <= i < 64 ==> buffer[i] == 0
      ensures digest == null ==> Holds(Padded(message))
    {
      hide Blocks, Padded, WordBytes;
      Pad(message);
      if digest != null {
        PutState(digest);
        count := 0;
        forall k | 0 <= k < 4 {
          state[k] := 0;
        }
        forall k | 0 <= k < 64 {
          buffer[k] := 0;
        }
      }
    }
  }

  /** One byte with a one bit, and zeros. */
  const PADDING: seq<Byte> := [0x80] + Zeros(63)

  /** PUT_64BIT_LE */
  method Put64(value: nat) returns (bytes: seq<Byte>)
    ensures bytes == LittleEndian(value, 8)
  {
    hide ByteOf;
    var cp := new Byte[8];
    cp[7] := ByteOf(value / 0x100_0000_0000_0000);
    cp[6] := ByteOf(value / 0x1_0000_0000_0000);
    cp[5] := ByteOf(value / 0x100_0000_0000);
    cp[4] := ByteOf(value / 0x1_0000_0000);
    cp[3] := ByteOf(value / 0x100_0000);
    cp[2] := ByteOf(value / 0x1_0000);
    cp[1] := ByteOf(value / 0x100);
    cp[0] := ByteOf(value);
    bytes := cp[..];
    EightBytes(value);
  }

  lemma FourBytes(value: nat)
    ensures LittleEndian(value, 4)
         == [ByteOf(value), ByteOf(value / 0x100), ByteOf(value / 0x1_0000), ByteOf(value / 0x100_0000)]
  {
    hide ByteOf;
    var v1 := value / 0x100;
    var v2 := v1 / 0x100;
    assert v2 == value / 0x1_0000 && v2 / 0x100 == value / 0x100_0000;
  }

  lemma EightBytes(value: nat)
    ensures LittleEndian(value, 8) ==
      [ByteOf(value), ByteOf(value / 0x100), ByteOf(value / 0x1_0000), ByteOf(value / 0x100_0000),
       ByteOf(value / 0x1_0000_0000), ByteOf(value / 0x100_0000_0000),
       ByteOf(value / 0x1_0000_0000_0000), ByteOf(value / 0x100_0000_0000_0000)]
  {
    hide LittleEndian, ByteOf;
    FourBytes(value);
    FourBytes(value / 0x1_0000_0000);
    HighBytes(value);
    HighQuotients(value);
  }

  lemma HighQuotients(value: nat)
    ensures var high := value / 0x1_0000_0000;
      && high / 0x100 == value / 0x100_0000_0000
      && high / 0x1_0000 == value / 0x1_0000_0000_0000
      && high / 0x100_0000 == value / 0x100_0000_0000_0000
  {
  }

  lemma FourQuotients(value: nat)
    ensures value / 0x100 / 0x100 / 0x100 / 0x100 == value / 0x1_0000_0000
  {
  }

  lemma HighBytes(value: nat)
    ensures LittleEndian(value, 8) == LittleEndian(value, 4) + LittleEndian(value / 0x1_0000_0000, 4)
  {
    hide ByteOf, LittleEndian;
    var v1 := value / 0x100;
    var v2 := v1 / 0x100;
    var v3 := v2 / 0x100;
    FourQuotients(value);
    NextByte(value, 7);
    NextByte(v1, 6);
    NextByte(v2, 5);
    NextByte(v3, 4);
    NextByte(value, 3);
    NextByte(v1, 2);
    NextByte(v2, 1);
    NextByte(v3, 0);
  }

  lemma NextByte(value: nat, n: nat)
    ensures LittleEndian(value, n + 1) == [ByteOf(value)] + LittleEndian(value / 0x100, n)
    ensures LittleEndian(value, 0) == []
  {
    hide ByteOf;
  }

  /** PUT_32BIT_LE */
  method Put32(digest: array<Byte>, at: nat, value: bv32)
    requires at + 4 <= digest.Length
    modifies digest
    ensures digest[..at] == old(digest[..at])
    ensures digest[at..at + 4] == WordBytes(value)
  {
    digest[at + 3] := (value >> 24) as bv8;
    digest[at + 2] := ((value >> 16) & 0xff) as bv8;
    digest[at + 1] := ((value >> 8) & 0xff) as bv8;
    digest[at] := (value & 0xff) as bv8;
  }

  function WordNumber(w: Words, i: nat): bv32 {
    if i == 0 then w.a else if i == 1 then w.b else if i == 2 then w.c else w.d
  }

  lemma OutputGrows(w: Words, i: nat)
    requires i < 4
    ensures Output(w)[..4 * (i + 1)] == Output(w)[..4 * i] + WordBytes(WordNumber(w, i))
  {
    hide WordBytes;
  }

  lemma PadLength(length: nat, padlen: nat)
    requires padlen == (if 64 - length % 64 < 9 then 128 else 64) - length % 64
    ensures 9 <= padlen <= 72 && ZeroBytes(length) == padlen - 9
  {
  }

  lemma PaddingPrefix(n: nat)
    requires n < 64
    ensures |PADDING| == 64 && PADDING[..n + 1] == [0x80] + Zeros(n)
  {
  }

  /** The padding that Pad feeds in two parts is the padding of the RFC. Its length is between 9 and
      72, so that the 64 bytes of PADDING are enough. */
  lemma PaddingSplits(message: seq<Byte>, padlen: nat)
    requires padlen == (if 64 - |message| % 64 < 9 then 128 else 64) - |message| % 64
    ensures 9 <= padlen <= 72 && padlen - 8 <= |PADDING|
    ensures |Padded(message)| == |message| + padlen
    ensures Padded(message)
         == message + PADDING[..padlen - 8] + LittleEndian(8 * |message| % TWO_64, 8)
  {
    PadLength(|message|, padlen);
    hide LittleEndian, ZeroBytes, Zeros;
    PaddingPrefix(padlen - 9);
  }

  lemma JoinBuffer(all: seq<Byte>, front: seq<Byte>, back: seq<Byte>)
    requires |all| == |front| + |back| && all[..|front|] == front && all[|front|..] == back
    ensures all == front + back
  {
  }

  /** Too few bytes to fill the buffer. */
  lemma ShortInput(message: seq<Byte>, input: seq<Byte>)
    requires |input| < 64 - |message| % 64
    ensures var all := message + input; var done := Whole(|message|);
      && Whole(|all|) == done && |all| % 64 == |message| % 64 + |input|
      && all[done..] == message[done..] + input
  {
  }

  /** Enough bytes to fill the buffer. */
  lemma LongInput(message: seq<Byte>, input: seq<Byte>)
    requires |input| >= 64 - |message| % 64
    ensures var all := message + input; var done := Whole(|message|); var need := 64 - |message| % 64;
      && done + 64 <= |all|
      && all[done..done + 64] == message[done..] + input[..need]
      && all[done + 64..] == input[need..]
      && (|message| % 64 == 0 ==> all[done..] == input)
  {
  }

  lemma NextBlock(all: seq<Byte>, done: nat)
    requires done % 64 == 0 && done + 64 <= |all|
    ensures Blocks(INITIAL, all[..done + 64]) == Compress(Blocks(INITIAL, all[..done]), all[done..done + 64])
  {
    hide Compress, Blocks;
    assert all[..done + 64] == all[..done] + all[done..done + 64];
    BlocksConcat(INITIAL, all[..done], all[done..done + 64]);
    OneBlock(Blocks(INITIAL, all[..done]), all[done..done + 64]);
  }

  // ---------- whole messages ----------

  function Concat(pieces: seq<seq<Byte>>): seq<Byte> {
    if pieces == [] then [] else Concat(pieces[..|pieces| - 1]) + pieces[|pieces| - 1]
  }

  lemma ConcatGrows(pieces: seq<seq<Byte>>, i: nat)
    requires i < |pieces|
    ensures Concat(pieces[..i + 1]) == Concat(pieces[..i]) + pieces[i]
  {
    assert pieces[..i + 1][..i] == pieces[..i];
  }

  /** However a message is cut into pieces, empty ones and long ones included, the digest is that of
      the message. */
  method DigestOf(pieces: seq<seq<Byte>>) returns (digest: array<Byte>)
    ensures fresh(digest) && digest[..] == Digest(Concat(pieces))
  {
    assert Concat(pieces[..0]) == [];
    hide *;
    var ctx := new Context();
    digest := new Byte[16];
    for i := 0 to |pieces|
      invariant fresh(ctx) && fresh(ctx.state) && fresh(ctx.buffer)
      invariant digest != ctx.buffer && fresh(digest)
      invariant ctx.Holds(Concat(pieces[..i]))
    {
      ctx.Update(pieces[i], Concat(pieces[..i]));
      ConcatGrows(pieces, i);
    }
    assert pieces[..|pieces|] == pieces;
    ctx.Final(digest, Concat(pieces));
  }
}
