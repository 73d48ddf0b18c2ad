/** The streaming context of mymd5.cpp, with its partial-block buffer and split bit counter. */
module Md5Stream {
  import opened Bytes
  import opened Rfc1321

  // ---- The step macros ----

  function FF(a: bv32, b: bv32, c: bv32, d: bv32, x: bv32, s: nat, ac: bv32): bv32
    requires 0 < s < 32
  {
    NewRegister(a, b, F(b, c, d), x, s, ac)
  }

  function GG(a: bv32, b: bv32, c: bv32, d: bv32, x: bv32, s: nat, ac: bv32): bv32
    requires 0 < s < 32
  {
    NewRegister(a, b, G(b, c, d), x, s, ac)
  }

  function HH(a: bv32, b: bv32, c: bv32, d: bv32, x: bv32, s: nat, ac: bv32): bv32
    requires 0 < s < 32
  {
    NewRegister(a, b, H(b, c, d), x, s, ac)
  }

  function II(a: bv32, b: bv32, c: bv32, d: bv32, x: bv32, s: nat, ac: bv32): bv32
    requires 0 < s < 32
  {
    NewRegister(a, b, I(b, c, d), x, s, ac)
  }

  lemma StepsBy4(q: Md5State, x: Words, n: nat)
    ensures Steps(q, x, n + 4) == Step(Step(Step(Step(Steps(q, x, n), x, n), x, n + 1), x, n + 2), x, n + 3)
  {
    hide Step;
    assert Steps(q, x, n + 1) == Step(Steps(q, x, n), x, n);
    assert Steps(q, x, n + 2) == Step(Steps(q, x, n + 1), x, n + 1);
    assert Steps(q, x, n + 3) == Step(Steps(q, x, n + 2), x, n + 2);
  }

  lemma StepFF(q: Md5State, x: Words, j: nat)
    requires 0 <= j < 16
    ensures Step(q, x, j) ==
      Md5State(q.d, FF(q.a, q.b, q.c, q.d, x[WordIndex(j)], ShiftAmount(j), Sine(j)), q.b, q.c)
  {
    hide F, G, H, I, NewRegister, WordIndex, ShiftAmount, Sine;
  }

  lemma StepGG(q: Md5State, x: Words, j: nat)
    requires 16 <= j < 32
    ensures Step(q, x, j) ==
      Md5State(q.d, GG(q.a, q.b, q.c, q.d, x[WordIndex(j)], ShiftAmount(j), Sine(j)), q.b, q.c)
  {
    hide F, G, H, I, NewRegister, WordIndex, ShiftAmount, Sine;
  }

  lemma StepHH(q: Md5State, x: Words, j: nat)
    requires 32 <= j < 48
    ensures Step(q, x, j) ==
      Md5State(q.d, HH(q.a, q.b, q.c, q.d, x[WordIndex(j)], ShiftAmount(j), Sine(j)), q.b, q.c)
  {
    hide F, G, H, I, NewRegister, WordIndex, ShiftAmount, Sine;
  }

  lemma StepII(q: Md5State, x: Words, j: nat)
    requires 48 <= j < 64
    ensures Step(q, x, j) ==
      Md5State(q.d, II(q.a, q.b, q.c, q.d, x[WordIndex(j)], ShiftAmount(j), Sine(j)), q.b, q.c)
  {
    hide F, G, H, I, NewRegister, WordIndex, ShiftAmount, Sine;
  }

  // ---- Four consecutive macro calls of each round, with their word indices and constants ----

  method FourFF(ghost q: Md5State, ghost n: nat, x: Words, a0: bv32, b0: bv32, c0: bv32, d0: bv32,
                k0: nat, t0: bv32, k1: nat, t1: bv32, k2: nat, t2: bv32, k3: nat, t3: bv32)
    returns (a: bv32, b: bv32, c: bv32, d: bv32)
    requires 0 <= n <= 12 && n % 4 == 0
    requires Md5State(a0, b0, c0, d0) == Steps(q, x, n)
    requires k0 == WordIndex(n) && k1 == WordIndex(n + 1) && k2 == WordIndex(n + 2) && k3 == WordIndex(n + 3)
    requires t0 == Sine(n) && t1 == Sine(n + 1) && t2 == Sine(n + 2) && t3 == Sine(n + 3)
    ensures Md5State(a, b, c, d) == Steps(q, x, n + 4)
  {
    hide FF, Step, Steps, WordIndex, Sine;
    ghost var p0 := Steps(q, x, n);
    ghost var p1 := Step(p0, x, n);
    ghost var p2 := Step(p1, x, n + 1);
    ghost var p3 := Step(p2, x, n + 2);
    StepsBy4(q, x, n);
    StepFF(p0, x, n);
    StepFF(p1, x, n + 1);
    StepFF(p2, x, n + 2);
    StepFF(p3, x, n + 3);
    a := FF(a0, b0, c0, d0, x[k0], 7, t0);
    d := FF(d0, a, b0, c0, x[k1], 12, t1);
    c := FF(c0, d, a, b0, x[k2], 17, t2);
    b := FF(b0, c, d, a, x[k3], 22, t3);
  }

  method FourGG(ghost q: Md5State, ghost n: nat, x: Words, a0: bv32, b0: bv32, c0: bv32, d0: bv32,
                k0: nat, t0: bv32, k1: nat, t1: bv32, k2: nat, t2: bv32, k3: nat, t3: bv32)
    returns (a: bv32, b: bv32, c: bv32, d: bv32)
    requires 16 <= n <= 28 && n % 4 == 0
    requires Md5State(a0, b0, c0, d0) == Steps(q, x, n)
    requires k0 == WordIndex(n) && k1 == WordIndex(n + 1) && k2 == WordIndex(n + 2) && k3 == WordIndex(n + 3)
    requires t0 == Sine(n) && t1 == Sine(n + 1) && t2 == Sine(n + 2) && t3 == Sine(n + 3)
    ensures Md5State(a, b, c, d) == Steps(q, x, n + 4)
  {
    hide GG, Step, Steps, WordIndex, Sine;
    ghost var p0 := Steps(q, x, n);
    ghost var p1 := Step(p0, x, n);
    ghost var p2 := Step(p1, x, n + 1);
    ghost var p3 := Step(p2, x, n + 2);
    StepsBy4(q, x, n);
    StepGG(p0, x, n);
    StepGG(p1, x, n + 1);
    StepGG(p2, x, n + 2);
    StepGG(p3, x, n + 3);
    a := GG(a0, b0, c0, d0, x[k0], 5, t0);
    d := GG(d0, a, b0, c0, x[k1], 9, t1);
    c := GG(c0, d, a, b0, x[k2], 14, t2);
    b := GG(b0, c, d, a, x[k3], 20, t3);
  }

  method FourHH(ghost q: Md5State, ghost n: nat, x: Words, a0: bv32, b0: bv32, c0: bv32, d0: bv32,
                k0: nat, t0: bv32, k1: nat, t1: bv32, k2: nat, t2: bv32, k3: nat, t3: bv32)
    returns (a: bv32, b: bv32, c: bv32, d: bv32)
    requires 32 <= n <= 44 && n % 4 == 0
    requires Md5State(a0, b0, c0, d0) == Steps(q, x, n)
    requires k0 == WordIndex(n) && k1 == WordIndex(n + 1) && k2 == WordIndex(n + 2) && k3 == WordIndex(n + 3)
    requires t0 == Sine(n) && t1 == Sine(n + 1) && t2 == Sine(n + 2) && t3 == Sine(n + 3)
    ensures Md5State(a, b, c, d) == Steps(q, x, n + 4)
  {
    hide HH, Step, Steps, WordIndex, Sine;
    ghost var p0 := Steps(q, x, n);
    ghost var p1 := Step(p0, x, n);
    ghost var p2 := Step(p1, x, n + 1);
    ghost var p3 := Step(p2, x, n + 2);
    StepsBy4(q, x, n);
    StepHH(p0, x, n);
    StepHH(p1, x, n + 1);
    StepHH(p2, x, n + 2);
    StepHH(p3, x, n + 3);
    a := HH(a0, b0, c0, d0, x[k0], 4, t0);
    d := HH(d0, a, b0, c0, x[k1], 11, t1);
    c := HH(c0, d, a, b0, x[k2], 16, t2);
    b := HH(b0, c, d, a, x[k3], 23, t3);
  }

  method FourII(ghost q: Md5State, ghost n: nat, x: Words, a0: bv32, b0: bv32, c0: bv32, d0: bv32,
                k0: nat, t0: bv32, k1: nat, t1: bv32, k2: nat, t2: bv32, k3: nat, t3: bv32)
    returns (a: bv32, b: bv32, c: bv32, d: bv32)
    requires 48 <= n <= 60 && n % 4 == 0
    requires Md5State(a0, b0, c0, d0) == Steps(q, x, n)
    requires k0 == WordIndex(n) && k1 == WordIndex(n + 1) && k2 == WordIndex(n + 2) && k3 == WordIndex(n + 3)
    requires t0 == Sine(n) && t1 == Sine(n + 1) && t2 == Sine(n + 2) && t3 == Sine(n + 3)
    ensures Md5State(a, b, c, d) == Steps(q, x, n + 4)
  {
    hide II, Step, Steps, WordIndex, Sine;
    ghost var p0 := Steps(q, x, n);
    ghost var p1 := Step(p0, x, n);
    ghost var p2 := Step(p1, x, n + 1);
    ghost var p3 := Step(p2, x, n + 2);
    StepsBy4(q, x, n);
    StepII(p0, x, n);
    StepII(p1, x, n + 1);
    StepII(p2, x, n + 2);
    StepII(p3, x, n + 3);
    a := II(a0, b0, c0, d0, x[k0], 6, t0);
    d := II(d0, a, b0, c0, x[k1], 10, t1);
    c := II(c0, d, a, b0, x[k2], 15, t2);
    b := II(b0, c, d, a, x[k3], 21, t3);
  }

  method Round1(ghost q: Md5State, x: Words, a0: bv32, b0: bv32, c0: bv32, d0: bv32)
    returns (a: bv32, b: bv32, c: bv32, d: bv32)
    requires Md5State(a0, b0, c0, d0) == Steps(q, x, 0)
    ensures Md5State(a, b, c, d) == Steps(q, x, 16)
  {
    hide Steps;
    a, b, c, d := a0, b0, c0, d0;
    a, b, c, d := FourFF(q, 0, x, a, b, c, d,
      0, 0xd76aa478, 1, 0xe8c7b756, 2, 0x242070db, 3, 0xc1bdceee);
    a, b, c, d := FourFF(q, 4, x, a, b, c, d,
      4, 0xf57c0faf, 5, 0x4787c62a, 6, 0xa8304613, 7, 0xfd469501);
    a, b, c, d := FourFF(q, 8, x, a, b, c, d,
      8, 0x698098d8, 9, 0x8b44f7af, 10, 0xffff5bb1, 11, 0x895cd7be);
    a, b, c, d := FourFF(q, 12, x, a, b, c, d,
      12, 0x6b901122, 13, 0xfd987193, 14, 0xa679438e, 15, 0x49b40821);
  }

  method Round2(ghost q: Md5State, x: Words, a0: bv32, b0: bv32, c0: bv32, d0: bv32)
    returns (a: bv32, b: bv32, c: bv32, d: bv32)
    requires Md5State(a0, b0, c0, d0) == Steps(q, x, 16)
    ensures Md5State(a, b, c, d) == Steps(q, x, 32)
  {
    hide Steps;
    a, b, c, d := a0, b0, c0, d0;
    a, b, c, d := FourGG(q, 16, x, a, b, c, d,
      1, 0xf61e2562, 6, 0xc040b340, 11, 0x265e5a51, 0, 0xe9b6c7aa);
    a, b, c, d := FourGG(q, 20, x, a, b, c, d,
      5, 0xd62f105d, 10, 0x02441453, 15, 0xd8a1e681, 4, 0xe7d3fbc8);
    a, b, c, d := FourGG(q, 24, x, a, b, c, d,
      9, 0x21e1cde6, 14, 0xc33707d6, 3, 0xf4d50d87, 8, 0x455a14ed);
    a, b, c, d := FourGG(q, 28, x, a, b, c, d,
      13, 0xa9e3e905, 2, 0xfcefa3f8, 7, 0x676f02d9, 12, 0x8d2a4c8a);
  }

  method Round3(ghost q: Md5State, x: Words, a0: bv32, b0: bv32, c0: bv32, d0: bv32)
    returns (a: bv32, b: bv32, c: bv32, d: bv32)
    requires Md5State(a0, b0, c0, d0) == Steps(q, x, 32)
    ensures Md5State(a, b, c, d) == Steps(q, x, 48)
  {
    hide Steps;
    a, b, c, d := a0, b0, c0, d0;
    a, b, c, d := FourHH(q, 32, x, a, b, c, d,
      5, 0xfffa3942, 8, 0x8771f681, 11, 0x6d9d6122, 14, 0xfde5380c);
    a, b, c, d := FourHH(q, 36, x, a, b, c, d,
      1, 0xa4beea44, 4, 0x4bdecfa9, 7, 0xf6bb4b60, 10, 0xbebfbc70);
    a, b, c, d := FourHH(q, 40, x, a, b, c, d,
      13, 0x289b7ec6, 0, 0xeaa127fa, 3, 0xd4ef3085, 6, 0x04881d05);
    a, b, c, d := FourHH(q, 44, x, a, b, c, d,
      9, 0xd9d4d039, 12, 0xe6db99e5, 15, 0x1fa27cf8, 2, 0xc4ac5665);
  }

  method Round4(ghost q: Md5State, x: Words, a0: bv32, b0: bv32, c0: bv32, d0: bv32)
    returns (a: bv32, b: bv32, c: bv32, d: bv32)
    requires Md5State(a0, b0, c0, d0) == Steps(q, x, 48)
    ensures Md5State(a, b, c, d) == Steps(q, x, 64)
  {
    hide Steps;
    a, b, c, d := a0, b0, c0, d0;
    a, b, c, d := FourII(q, 48, x, a, b, c, d,
      0, 0xf4292244, 7, 0x432aff97, 14, 0xab9423a7, 5, 0xfc93a039);
    a, b, c, d := FourII(q, 52, x, a, b, c, d,
      12, 0x655b59c3, 3, 0x8f0ccc92, 10, 0xffeff47d, 1, 0x85845dd1);
    a, b, c, d := FourII(q, 56, x, a, b, c, d,
      8, 0x6fa87e4f, 15, 0xfe2ce6e0, 6, 0xa3014314, 13, 0x4e0811a1);
    a, b, c, d := FourII(q, 60, x, a, b, c, d,
      4, 0xf7537e82, 11, 0xbd3af235, 2, 0x2ad7d2bb, 9, 0xeb86d391);
  }

  /** MD5Decode of one block: sixteen words, low-order byte first. */
  method Decode(block: seq<bv8>) returns (x: array<bv32>)
    requires |block| == 64
    ensures fresh(x) && x.Length == 16 && x[..] == WordsOf(block)
  {
    x := new bv32[16];
    var i, j := 0, 0;
    while j < 64
      invariant 0 <= i <= 16 && j == 4 * i
      invariant x[..i] == WordsOf(block)[..i]
    {
      x[i] := WordOf(block[j], block[j + 1], block[j + 2], block[j + 3]);
      i := i + 1;
      j := j + 4;
    }
  }

  function Concatenated(ws: seq<bv32>): (b: seq<bv8>)
    ensures |b| == 4 * |ws|
  {
    if ws == [] then [] else Concatenated(ws[..|ws| - 1]) + BytesOf(ws[|ws| - 1])
  }

  /** MD5Encode: the bytes of each word, low-order byte first. */
  method Encode(input: seq<bv32>) returns (output: array<bv8>)
    ensures fresh(output) && output[..] == Concatenated(input)
  {
    hide BytesOf;
    output := new bv8[4 * |input|];
    var i, j := 0, 0;
    while j < 4 * |input|
      invariant 0 <= i <= |input| && j == 4 * i
      invariant output[..j] == Concatenated(input[..i])
    {
      var b := BytesOf(input[i]);
      output[j] := b[0];
      output[j + 1] := b[1];
      output[j + 2] := b[2];
      output[j + 3] := b[3];
      assert input[..i + 1][..i] == input[..i];
      assert output[..j + 4] == output[..j] + b;
      i := i + 1;
      j := j + 4;
    }
    assert input[..|input|] == input;
  }

  lemma NoSteps(q: Md5State, x: Words)
    ensures Steps(q, x, 0) == q
  {
  }

  // ---- What the context keeps of a message ----

  ghost function Whole(m: seq<bv8>): seq<bv8> {
    m[..|m| - |m| % 64]
  }

  ghost function Rest(m: seq<bv8>): seq<bv8> {
    m[|m| - |m| % 64..]
  }

  /** The two counters are the low and the high word of the bit length modulo 2^64. */
  ghost predicate CountsBits(lo: nat, hi: nat, length: nat) {
    lo == 8 * length % TWO32 && hi == 8 * length / TWO32 % TWO32
  }

  lemma BufferIndex(lo: nat, hi: nat, length: nat)
    requires CountsBits(lo, hi, length)
    ensures lo / 8 % 64 == length % 64
  {
  }

  lemma SumSplits(a: nat, b: nat)
    ensures (a + b) % TWO32 == (a % TWO32 + b % TWO32) % TWO32
    ensures (a + b) / TWO32 == a / TWO32 + b / TWO32 + (if a % TWO32 + b % TWO32 < TWO32 then 0 else 1)
  {
  }

  lemma SumOfThree(a: nat, carry: nat, b: nat)
    ensures ((a % TWO32 + carry) % TWO32 + b) % TWO32 == (a + b + carry) % TWO32
  {
  }

  /** Adding with the carry detected by comparison keeps the 64-bit count. */
  lemma CountAdds(lo: nat, hi: nat, length: nat, more: nat)
    requires CountsBits(lo, hi, length) && more < TWO32
    ensures var bits := more * 8 % TWO32;
            var lo' := (lo + bits) % TWO32;
            var hi' := if lo' < bits then (hi + 1) % TWO32 else hi;
            CountsBits(lo', (hi' + more / 0x2000_0000) % TWO32, length + more)
  {
    var bits := more * 8 % TWO32;
    assert 8 * more / TWO32 == more / 0x2000_0000;
    assert 8 * (length + more) == 8 * length + 8 * more;
    SumSplits(8 * length, 8 * more);
    SumOfThree(8 * length / TWO32, if lo + bits < TWO32 then 0 else 1, more / 0x2000_0000);
  }

  lemma OneBlock(h: Md5State, block: seq<bv8>)
    requires |block| == 64
    ensures Digested(h, block) == Transform(h, block)
  {
    hide Transform;
    assert block[..64] == block && block[64..] == [];
  }

  /** The message and the first i bytes of the input. */
  ghost function Taken(message: seq<bv8>, input: seq<bv8>, i: nat): seq<bv8>
    requires i <= |input|
  {
    message + input[..i]
  }

  /** The buffer, filled up from the input, is the next block. */
  lemma FirstBlock(message: seq<bv8>, input: seq<bv8>, block: seq<bv8>)
    requires |block| == 64 && 64 - |message| % 64 <= |input|
    requires block == Rest(message) + input[..64 - |message| % 64]
    ensures Digested(INITIAL, Taken(message, input, 64 - |message| % 64))
         == Transform(Digested(INITIAL, Whole(message)), block)
  {
    hide Transform, Digested;
    DigestedConcat(INITIAL, Whole(message), block);
    OneBlock(Digested(INITIAL, Whole(message)), block);
    assert Taken(message, input, 64 - |message| % 64) == Whole(message) + block;
  }

  lemma LaterBlock(message: seq<bv8>, input: seq<bv8>, i: nat)
    requires i + 64 <= |input| && (|message| + i) % 64 == 0
    ensures Digested(INITIAL, Taken(message, input, i + 64))
         == Transform(Digested(INITIAL, Taken(message, input, i)), input[i..i + 64])
  {
    hide Transform, Digested;
    DigestedConcat(INITIAL, Taken(message, input, i), input[i..i + 64]);
    OneBlock(Digested(INITIAL, Taken(message, input, i)), input[i..i + 64]);
    assert Taken(message, input, i + 64) == Taken(message, input, i) + input[i..i + 64];
  }

  /** No complete block is left after the first i bytes of the input. */
  lemma Settled(message: seq<bv8>, input: seq<bv8>, i: nat)
    requires i <= |input| < i + 64 && (|message| + i) % 64 == 0
    ensures Whole(message + input) == Taken(message, input, i)
    ensures Rest(message + input) == input[i..] && |message + input| % 64 == |input| - i
  {
  }

  /** The input only extends the buffer. */
  lemma NoBlock(message: seq<bv8>, input: seq<bv8>)
    requires |message| % 64 + |input| < 64
    ensures Whole(message + input) == Whole(message)
    ensures Rest(message + input) == Rest(message) + input
    ensures |message + input| % 64 == |message| % 64 + |input|
  {
    RestAdds(|message|, |input|);
    var start := |message| - |message| % 64;
    assert (message + input)[..start] == message[..start];
    assert (message + input)[start..] == message[start..] + input;
  }

  lemma RestAdds(m: nat, n: nat)
    requires m % 64 + n < 64
    ensures (m + n) % 64 == m % 64 + n
  {
  }

  lemma LastSlot(i: nat)
    ensures TWO32 - 64 <= i < TWO32 ==> i - (TWO32 - 64) == i % 64
  {
  }

  lemma NextStart(length: nat, i: nat)
    ensures (length + (i + 64)) % 64 == (length + i) % 64
  {
  }

  /** In the block loop i never reaches 2^32 - 64, where adding 64 would wrap around. */
  lemma NoWrap(i: nat, inputlen: nat, length: nat)
    requires i <= inputlen < TWO32 - 64 + (64 - length % 64) % 64
    requires (length + i) % 64 == 0
    ensures i + 64 < TWO32
  {
    LastSlot(i);
    assert i % 64 == (64 - length % 64) % 64;
  }

  class Md5Context {
    var count0: nat
    var count1: nat
    const state: array<bv32>
    const buffer: array<bv8>
    /** Everything fed since MD5Init. */
    ghost var message: seq<bv8>

    ghost function State(): Md5State
      requires state.Length == 4
      reads state
    {
      Md5State(state[0], state[1], state[2], state[3])
    }

    /** The context holds its message: complete blocks digested, the rest in the buffer,
        the bit length split over the two counters. */
    ghost predicate Valid()
      reads this, state, buffer
    {
      && state.Length == 4 && buffer.Length == 64
      && CountsBits(count0, count1, |message|)
      && State() == Digested(INITIAL, Whole(message))
      && buffer[..|message| % 64] == Rest(message)
    }

    constructor MD5Init()
      ensures Valid() && message == [] && fresh(state) && fresh(buffer)
    {
      count0 := 0;
      count1 := 0;
      state := new bv32[4];
      buffer := new bv8[64];
      message := [];
      new;
      state[0] := 0x67452301;
      state[1] := 0xEFCDAB89;
      state[2] := 0x98BADCFE;
      state[3] := 0x10325476;
    }

    method MD5Transform(block: seq<bv8>)
      requires |block| == 64 && state.Length == 4
      modifies state
      ensures State() == Transform(old(State()), block)
    {
      hide Steps, WordsOf, AddWords;
      ghost var q := State();
      var words := Decode(block);
      var x: Words := words[..];
      assert Steps(q, x, 0) == q by { NoSteps(q, x); }
      var a, b, c, d := Round1(q, x, state[0], state[1], state[2], state[3]);
      a, b, c, d := Round2(q, x, a, b, c, d);
      a, b, c, d := Round3(q, x, a, b, c, d);
      a, b, c, d := Round4(q, x, a, b, c, d);
      state[0] := AddWords(state[0], a);
      state[1] := AddWords(state[1], b);
      state[2] := AddWords(state[2], c);
      state[3] := AddWords(state[3], d);
    }

    /** memcpy(&buffer[index], input, |input|) */
    method Fill(index: nat, input: seq<bv8>)
      requires buffer.Length == 64 && index + |input| <= 64
      modifies buffer
      ensures buffer[..index] == old(buffer[..index]) && buffer[index..index + |input|] == input
    {
      for k := 0 to |input|
        invariant buffer[..index] == old(buffer[..index]) && buffer[index..index + k] == input[..k]
      {
        buffer[index + k] := input[k];
      }
    }

    /** The low counter takes 8 * inputlen, the high counter the carry and the rest. */
    method AddLength(inputlen: nat)
      requires CountsBits(count0, count1, |message|) && inputlen < TWO32
      modifies this`count0, this`count1
      ensures CountsBits(count0, count1, |message| + inputlen)
    {
      hide CountsBits;
      CountAdds(count0, count1, |message|, inputlen);
      count0 := (count0 + inputlen * 8 % TWO32) % TWO32;
      if count0 < inputlen * 8 % TWO32 {
        count1 := (count1 + 1) % TWO32;
      }
      count1 := (count1 + inputlen / 0x2000_0000) % TWO32;
    }

    /** The precondition is that no index i + 64 of the block loop wraps around 2^32. */
    method MD5Update(input: seq<bv8>)
      requires Valid() && |input| < TWO32 - 64 + (64 - |message| % 64) % 64
      modifies this, state, buffer
      ensures Valid() && message == old(message) + input
    {
      hide Transform, Digested, CountsBits, Whole, Rest, Taken;
      var inputlen := |input|;
      BufferIndex(count0, count1, |message|);
      var index := count0 / 8 % 64;
      var partlen := 64 - index;
      AddLength(inputlen);
      if inputlen >= partlen {
        Fill(index, input[..partlen]);
        FirstBlock(message, input, buffer[..]);
        MD5Transform(buffer[..]);
        var i := DigestBlocks(input, partlen);
        Settled(message, input, i);
        index := 0;
        Fill(index, input[i..]);
      } else {
        NoBlock(message, input);
        Fill(index, input);
      }
      message := message + input;
    }

    /** The loop over the complete blocks inside the input. */
    method DigestBlocks(input: seq<bv8>, partlen: nat) returns (i: nat)
      requires state.Length == 4 && partlen <= |input| && partlen == 64 - |message| % 64
      requires |input| < TWO32 - 64 + (64 - |message| % 64) % 64
      requires State() == Digested(INITIAL, Taken(message, input, partlen))
      modifies state
      ensures i <= |input| < i + 64 && (|message| + i) % 64 == 0
      ensures State() == Digested(INITIAL, Taken(message, input, i))
    {
      hide Transform, Digested, Taken;
      i := partlen;
      NoWrap(i, |input|, |message|);
      while (i + 64) % TWO32 <= |input|
        invariant i <= |input| && (|message| + i) % 64 == 0 && i + 64 < TWO32
        invariant State() == Digested(INITIAL, Taken(message, input, i))
        decreases |input| - i
      {
        LaterBlock(message, input, i);
        MD5Transform(input[i..i + 64]);
        NextStart(|message|, i);
        i := i + 64;
        NoWrap(i, |input|, |message|);
      }
    }

    /** Padding, then the length as it was before the padding. */
    method PadToBlocks()
      requires Valid()
      modifies this, state, buffer
      ensures Valid() && message == Padded(old(message))
    {
      hide Digested, BytesOf, LengthBytes, Padding, Concatenated, Whole, Rest, Padded, CountsBits;
      BufferIndex(count0, count1, |message|);
      var index := count0 / 8 % 64;
      var padlen := if index < 56 then 56 - index else 120 - index;
      assert padlen == PaddingLength(|message|);
      hide PaddingLength;
      CountBytes(count0, count1, |message|);
      var bits := Encode([count0 as bv32, count1 as bv32]);
      PaddingIsPrefix(|message|);
      WholeOfPadded(message);
      MD5Update(PADDING[..padlen]);
      MD5Update(bits[..]);
    }

    method MD5Final() returns (digest: array<bv8>)
      requires Valid()
      modifies this, state, buffer
      ensures fresh(digest) && digest[..] == Md5(old(message))
    {
      hide Digested, Concatenated, CountsBits, Whole, Rest, Padded, StateBytes;
      WholeOfPadded(message);
      PadToBlocks();
      digest := Encode([state[0], state[1], state[2], state[3]]);
      DigestBytes(State());
    }
  }

  /** However a message is cut into pieces, the digest is that of the whole message. */
  method DigestInPieces(pieces: seq<seq<bv8>>) returns (digest: array<bv8>)
    requires forall p | p in pieces :: |p| < TWO32 - 64
    ensures fresh(digest) && digest[..] == Md5(Concat(pieces))
  {
    hide Digested, Whole, Rest, CountsBits, Md5;
    var context := new Md5Context.MD5Init();
    assert pieces[..0] == [];
    for k := 0 to |pieces|
      invariant context.Valid() && fresh(context) && fresh(context.state) && fresh(context.buffer)
      invariant context.message == Concat(pieces[..k])
    {
      ConcatAppend(pieces[..k], pieces[k]);
      assert pieces[..k + 1] == pieces[..k] + [pieces[k]];
      assert pieces[k] in pieces;
      context.MD5Update(pieces[k]);
    }
    assert pieces[..|pieces|] == pieces;
    digest := context.MD5Final();
  }

  const PADDING: seq<bv8> := seq(64, i => if i == 0 then 0x80 else 0)

  lemma TwoWords(a: bv32, b: bv32)
    ensures Concatenated([a, b]) == BytesOf(a) + BytesOf(b)
  {
    hide BytesOf;
    assert [a, b][..1] == [a];
    assert [a][..0] == [];
  }

  lemma DigestBytes(h: Md5State)
    ensures Concatenated([h.a, h.b, h.c, h.d]) == StateBytes(h)
  {
    hide BytesOf;
    assert [h.a, h.b, h.c, h.d][..3] == [h.a, h.b, h.c];
    assert [h.a, h.b, h.c][..2] == [h.a, h.b];
    TwoWords(h.a, h.b);
  }

  lemma PaddingIsPrefix(length: nat)
    ensures PADDING[..PaddingLength(length)] == Padding(length)
  {
  }

  lemma CountBytes(lo: nat, hi: nat, length: nat)
    requires CountsBits(lo, hi, length)
    ensures lo < TWO32 && hi < TWO32
    ensures Concatenated([lo as bv32, hi as bv32]) == LengthBytes(length)
  {
    hide BytesOf, Concatenated;
    TwoWords(lo as bv32, hi as bv32);
  }

  lemma WholeOfPadded(m: seq<bv8>)
    ensures Padded(m) == m + Padding(|m|) + LengthBytes(|m|) && Whole(Padded(m)) == Padded(m)
  {
  }
}
