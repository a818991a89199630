/** The streaming MD5 of mkcrypt.c: an unrolled block function and a context that takes the message
    in pieces, against the definition of RFC 1321. */
module Md5 {
  import opened Md5Definition

  // ---------- one block (MD5Transform) ----------

  /** F1 saves an operation over the definition of the RFC, and F2 reuses it. */
  function F1(x: bv32, y: bv32, z: bv32): bv32 {
    z ^ (x & (y ^ z))
  }

  function F2(x: bv32, y: bv32, z: bv32): bv32 {
    F1(z, x, y)
  }

  function F3(x: bv32, y: bv32, z: bv32): bv32 {
    x ^ y ^ z
  }

  function F4(x: bv32, y: bv32, z: bv32): bv32 {
    y ^ (x | !z)
  }

  function Core(r: Round, x: bv32, y: bv32, z: bv32): bv32 {
    match r
    case Round1 => F1(x, y, z)
    case Round2 => F2(x, y, z)
    case Round3 => F3(x, y, z)
    case Round4 => F4(x, y, z)
  }

  lemma CoreIsAuxiliary(r: Round, x: bv32, y: bv32, z: bv32)
    ensures Core(r, x, y, z) == Auxiliary(r, x, y, z)
  {
    F1IsF(x, y, z);
    F2IsG(x, y, z);
    F3IsH(x, y, z);
    F4IsI(x, y, z);
    hide F1, F2, F3, F4, F, G, H, I;
  }

  lemma Selection(x: bv32, y: bv32, z: bv32)
    ensures z ^ (x & (y ^ z)) == (x & y) | (!x & z)
  {
  }

  lemma TurnedSelection(x: bv32, y: bv32, z: bv32)
    ensures y ^ (z & (x ^ y)) == (x & z) | (y & !z)
  {
  }

  lemma F1IsF(x: bv32, y: bv32, z: bv32)
    ensures F1(x, y, z) == F(x, y, z)
  {
    Selection(x, y, z);
  }

  lemma F2IsG(x: bv32, y: bv32, z: bv32)
    ensures F2(x, y, z) == G(x, y, z)
  {
    TurnedSelection(x, y, z);
  }

  lemma F3IsH(x: bv32, y: bv32, z: bv32)
    ensures F3(x, y, z) == H(x, y, z)
  {
  }

  lemma F4IsI(x: bv32, y: bv32, z: bv32)
    ensures F4(x, y, z) == I(x, y, z)
  {
  }

  function AddedTo(w: bv32, f: bv32, data: bv32, t: bv32): bv32 {
    w + (f + (data + t))
  }

  function ShiftedRound(v: bv32, s: bv6): bv32
    requires s <= 32
  {
    (v << s) | (v >> (32 - s))
  }

  lemma AddedToIsTotal(w: bv32, f: bv32, data: bv32, t: bv32)
    ensures AddedTo(w, f, data, t) == Total(w, f, data, t)
  {
  }

  lemma ShiftedRoundIsRotated(v: bv32, s: bv6)
    requires s <= 32
    ensures ShiftedRound(v, s) == Rotated(v, s)
  {
  }

  lemma PlusCommutes(v: bv32, w: bv32)
    ensures Plus(v, w) == Plus(w, v)
  {
  }

  lemma StepAgrees(r: Round, w: bv32, x: bv32, y: bv32, z: bv32, data: bv32, t: bv32, s: bv6)
    requires s <= 32
    ensures Plus(ShiftedRound(AddedTo(w, Core(r, x, y, z), data, t), s), x)
         == Mix(x, w, Auxiliary(r, x, y, z), data, t, s)
  {
    hide Core, Auxiliary, AddedTo, ShiftedRound, Rotated, Plus, Total;
    CoreIsAuxiliary(r, x, y, z);
    var f := Core(r, x, y, z);
    AddedToIsTotal(w, f, data, t);
    ShiftedRoundIsRotated(Total(w, f, data, t), s);
    PlusCommutes(Rotated(Total(w, f, data, t), s), x);
  }

  /** MD5STEP: the new value of w. As step i it needs the core function, the word of the block, the
      constant and the shift that the RFC gives for i. */
  method Md5Step(r: Round, w: bv32, x: bv32, y: bv32, z: bv32, words: seq<bv32>, k: nat, t: bv32, s: bv6,
                 ghost i: nat, ghost start: Words, ghost block: seq<Byte>)
    returns (v: bv32)
    requires IsMessage(words, block) && Words(w, x, y, z) == Steps(start, block, i)
    requires r == RoundOf(i) && k == MessageIndex(i) && T(i) == Constant(t) && Shift(i) == Amount(s) && s <= 32
    ensures Words(z, v, x, y) == Steps(start, block, i + 1)
  {
    hide Core, AddedTo, ShiftedRound, Plus, WordAt, Mix, T, Shift, Auxiliary;
    var data := words[k];
    v := AddedTo(w, Core(r, x, y, z), data, t);
    v := ShiftedRound(v, s);
    v := Plus(v, x);
    StepAgrees(r, w, x, y, z, data, t, s);
  }

  /** The words of a block, in the byte order of the message. */
  predicate IsMessage(x: seq<bv32>, block: seq<Byte>) {
    |x| == 16 && |block| == 64 && forall k :: 0 <= k < 16 ==> x[k] == WordAt(block, k)
  }

  method Steps0To7(v: Words, x: seq<bv32>, ghost start: Words, ghost block: seq<Byte>) returns (w: Words)
    requires IsMessage(x, block) && v == Steps(start, block, 0)
    ensures w == Steps(start, block, 8)
  {
    hide Steps, IsMessage;
    var a, b, c, d := v.a, v.b, v.c, v.d;
    a := Md5Step(Round1, a, b, c, d, x, 0, 0xd76aa478, 7, 0, start, block);
    d := Md5Step(Round1, d, a, b, c, x, 1, 0xe8c7b756, 12, 1, start, block);
    c := Md5Step(Round1, c, d, a, b, x, 2, 0x242070db, 17, 2, start, block);
    b := Md5Step(Round1, b, c, d, a, x, 3, 0xc1bdceee, 22, 3, start, block);
    a := Md5Step(Round1, a, b, c, d, x, 4, 0xf57c0faf, 7, 4, start, block);
    d := Md5Step(Round1, d, a, b, c, x, 5, 0x4787c62a, 12, 5, start, block);
    c := Md5Step(Round1, c, d, a, b, x, 6, 0xa8304613, 17, 6, start, block);
    b := Md5Step(Round1, b, c, d, a, x, 7, 0xfd469501, 22, 7, start, block);
    return Words(a, b, c, d);
  }

  method Steps8To15(v: Words, x: seq<bv32>, ghost start: Words, ghost block: seq<Byte>) returns (w: Words)
    requires IsMessage(x, block) && v == Steps(start, block, 8)
    ensures w == Steps(start, block, 16)
  {
    hide Steps, IsMessage;
    var a, b, c, d := v.a, v.b, v.c, v.d;
    a := Md5Step(Round1, a, b, c, d, x, 8, 0x698098d8, 7, 8, start, block);
    d := Md5Step(Round1, d, a, b, c, x, 9, 0x8b44f7af, 12, 9, start, block);
    c := Md5Step(Round1, c, d, a, b, x, 10, 0xffff5bb1, 17, 10, start, block);
    b := Md5Step(Round1, b, c, d, a, x, 11, 0x895cd7be, 22, 11, start, block);
    a := Md5Step(Round1, a, b, c, d, x, 12, 0x6b901122, 7, 12, start, block);
    d := Md5Step(Round1, d, a, b, c, x, 13, 0xfd987193, 12, 13, start, block);
    c := Md5Step(Round1, c, d, a, b, x, 14, 0xa679438e, 17, 14, start, block);
    b := Md5Step(Round1, b, c, d, a, x, 15, 0x49b40821, 22, 15, start, block);
    return Words(a, b, c, d);
  }

  method Steps16To23(v: Words, x: seq<bv32>, ghost start: Words, ghost block: seq<Byte>) returns (w: Words)
    requires IsMessage(x, block) && v == Steps(start, block, 16)
    ensures w == Steps(start, block, 24)
  {
    hide Steps, IsMessage;
    var a, b, c, d := v.a, v.b, v.c, v.d;
    a := Md5Step(Round2, a, b, c, d, x, 1, 0xf61e2562, 5, 16, start, block);
    d := Md5Step(Round2, d, a, b, c, x, 6, 0xc040b340, 9, 17, start, block);
    c := Md5Step(Round2, c, d, a, b, x, 11, 0x265e5a51, 14, 18, start, block);
    b := Md5Step(Round2, b, c, d, a, x, 0, 0xe9b6c7aa, 20, 19, start, block);
    a := Md5Step(Round2, a, b, c, d, x, 5, 0xd62f105d, 5, 20, start, block);
    d := Md5Step(Round2, d, a, b, c, x, 10, 0x02441453, 9, 21, start, block);
    c := Md5Step(Round2, c, d, a, b, x, 15, 0xd8a1e681, 14, 22, start, block);
    b := Md5Step(Round2, b, c, d, a, x, 4, 0xe7d3fbc8, 20, 23, start, block);
    return Words(a, b, c, d);
  }

  method Steps24To31(v: Words, x: seq<bv32>, ghost start: Words, ghost block: seq<Byte>) returns (w: Words)
    requires IsMessage(x, block) && v == Steps(start, block, 24)
    ensures w == Steps(start, block, 32)
  {
    hide Steps, IsMessage;
    var a, b, c, d := v.a, v.b, v.c, v.d;
    a := Md5Step(Round2, a, b, c, d, x, 9, 0x21e1cde6, 5, 24, start, block);
    d := Md5Step(Round2, d, a, b, c, x, 14, 0xc33707d6, 9, 25, start, block);
    c := Md5Step(Round2, c, d, a, b, x, 3, 0xf4d50d87, 14, 26, start, block);
    b := Md5Step(Round2, b, c, d, a, x, 8, 0x455a14ed, 20, 27, start, block);
    a := Md5Step(Round2, a, b, c, d, x, 13, 0xa9e3e905, 5, 28, start, block);
    d := Md5Step(Round2, d, a, b, c, x, 2, 0xfcefa3f8, 9, 29, start, block);
    c := Md5Step(Round2, c, d, a, b, x, 7, 0x676f02d9, 14, 30, start, block);
    b := Md5Step(Round2, b, c, d, a, x, 12, 0x8d2a4c8a, 20, 31, start, block);
    return Words(a, b, c, d);
  }

  method Steps32To39(v: Words, x: seq<bv32>, ghost start: Words, ghost block: seq<Byte>) returns (w: Words)
    requires IsMessage(x, block) && v == Steps(start, block, 32)
    ensures w == Steps(start, block, 40)
  {
    hide Steps, IsMessage;
    var a, b, c, d := v.a, v.b, v.c, v.d;
    a := Md5Step(Round3, a, b, c, d, x, 5, 0xfffa3942, 4, 32, start, block);
    d := Md5Step(Round3, d, a, b, c, x, 8, 0x8771f681, 11, 33, start, block);
    c := Md5Step(Round3, c, d, a, b, x, 11, 0x6d9d6122, 16, 34, start, block);
    b := Md5Step(Round3, b, c, d, a, x, 14, 0xfde5380c, 23, 35, start, block);
    a := Md5Step(Round3, a, b, c, d, x, 1, 0xa4beea44, 4, 36, start, block);
    d := Md5Step(Round3, d, a, b, c, x, 4, 0x4bdecfa9, 11, 37, start, block);
    c := Md5Step(Round3, c, d, a, b, x, 7, 0xf6bb4b60, 16, 38, start, block);
    b := Md5Step(Round3, b, c, d, a, x, 10, 0xbebfbc70, 23, 39, start, block);
    return Words(a, b, c, d);
  }

  method Steps40To47(v: Words, x: seq<bv32>, ghost start: Words, ghost block: seq<Byte>) returns (w: Words)
    requires IsMessage(x, block) && v == Steps(start, block, 40)
    ensures w == Steps(start, block, 48)
  {
    hide Steps, IsMessage;
    var a, b, c, d := v.a, v.b, v.c, v.d;
    a := Md5Step(Round3, a, b, c, d, x, 13, 0x289b7ec6, 4, 40, start, block);
    d := Md5Step(Round3, d, a, b, c, x, 0, 0xeaa127fa, 11, 41, start, block);
    c := Md5Step(Round3, c, d, a, b, x, 3, 0xd4ef3085, 16, 42, start, block);
    b := Md5Step(Round3, b, c, d, a, x, 6, 0x04881d05, 23, 43, start, block);
    a := Md5Step(Round3, a, b, c, d, x, 9, 0xd9d4d039, 4, 44, start, block);
    d := Md5Step(Round3, d, a, b, c, x, 12, 0xe6db99e5, 11, 45, start, block);
    c := Md5Step(Round3, c, d, a, b, x, 15, 0x1fa27cf8, 16, 46, start, block);
    b := Md5Step(Round3, b, c, d, a, x, 2, 0xc4ac5665, 23, 47, start, block);
    return Words(a, b, c, d);
  }

  method Steps48To55(v: Words, x: seq<bv32>, ghost start: Words, ghost block: seq<Byte>) returns (w: Words)
    requires IsMessage(x, block) && v == Steps(start, block, 48)
    ensures w == Steps(start, block, 56)
  {
    hide Steps, IsMessage;
    var a, b, c, d := v.a, v.b, v.c, v.d;
    a := Md5Step(Round4, a, b, c, d, x, 0, 0xf4292244, 6, 48, start, block);
    d := Md5Step(Round4, d, a, b, c, x, 7, 0x432aff97, 10, 49, start, block);
    c := Md5Step(Round4, c, d, a, b, x, 14, 0xab9423a7, 15, 50, start, block);
    b := Md5Step(Round4, b, c, d, a, x, 5, 0xfc93a039, 21, 51, start, block);
    a := Md5Step(Round4, a, b, c, d, x, 12, 0x655b59c3, 6, 52, start, block);
    d := Md5Step(Round4, d, a, b, c, x, 3, 0x8f0ccc92, 10, 53, start, block);
    c := Md5Step(Round4, c, d, a, b, x, 10, 0xffeff47d, 15, 54, start, block);
    b := Md5Step(Round4, b, c, d, a, x, 1, 0x85845dd1, 21, 55, start, block);
    return Words(a, b, c, d);
  }

  method Steps56To63(v: Words, x: seq<bv32>, ghost start: Words, ghost block: seq<Byte>) returns (w: Words)
    requires IsMessage(x, block) && v == Steps(start, block, 56)
    ensures w == Steps(start, block, 64)
  {
    hide Steps, IsMessage;
    var a, b, c, d := v.a, v.b, v.c, v.d;
    a := Md5Step(Round4, a, b, c, d, x, 8, 0x6fa87e4f, 6, 56, start, block);
    d := Md5Step(Round4, d, a, b, c, x, 15, 0xfe2ce6e0, 10, 57, start, block);
    c := Md5Step(Round4, c, d, a, b, x, 6, 0xa3014314, 15, 58, start, block);
    b := Md5Step(Round4, b, c, d, a, x, 13, 0x4e0811a1, 21, 59, start, block);
    a := Md5Step(Round4, a, b, c, d, x, 4, 0xf7537e82, 6, 60, start, block);
    d := Md5Step(Round4, d, a, b, c, x, 11, 0xbd3af235, 10, 61, start, block);
    c := Md5Step(Round4, c, d, a, b, x, 2, 0x2ad7d2bb, 15, 62, start, block);
    b := Md5Step(Round4, b, c, d, a, x, 9, 0xeb86d391, 21, 63, start, block);
    return Words(a, b, c, d);
  }

  function InState(state: array<bv32>): Words
    requires state.Length == 4
    reads state
  {
    Words(state[0], state[1], state[2], state[3])
  }

  /** The copy of the block into words, on a machine of any byte order. */
  method Decode(block: seq<Byte>) returns (x: seq<bv32>)
    requires |block| == 64
    ensures IsMessage(x, block)
  {
    hide WordFrom;
    var words := new bv32[16];
    var k := 0;
    while k < 16
      invariant 0 <= k <= 16
      invariant forall j :: 0 <= j < k ==> words[j] == WordAt(block, j)
    {
      words[k] := WordFrom(block[k * 4], block[k * 4 + 1], block[k * 4 + 2], block[k * 4 + 3]);
      k := k + 1;
    }
    x := words[..];
  }

  method AllSteps(start: Words, block: seq<Byte>) returns (w: Words)
    requires |block| == 64
    ensures w == Steps(start, block, 64)
  {
    assert start == Steps(start, block, 0);
    hide *;
    var x := Decode(block);
    w := Steps0To7(start, x, start, block);
    w := Steps8To15(w, x, start, block);
    w := Steps16To23(w, x, start, block);
    w := Steps24To31(w, x, start, block);
    w := Steps32To39(w, x, start, block);
    w := Steps40To47(w, x, start, block);
    w := Steps48To55(w, x, start, block);
    w := Steps56To63(w, x, start, block);
  }

  method Transform(state: array<bv32>, block: seq<Byte>)
    requires state.Length == 4 && |block| == 64
    modifies state
    ensures InState(state) == Compress(old(InState(state)), block)
  {
    hide Steps, Plus;
    var w := AllSteps(InState(state), block);
    state[0] := Plus(state[0], w.a);
    state[1] := Plus(state[1], w.b);
    state[2] := Plus(state[2], w.c);
    state[3] := Plus(state[3], w.d);
  }
}
