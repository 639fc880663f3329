/** memcpy and memset of the kernel (source/kernel/core/memory.c) on a flat byte
    memory: an address is an index, so ranges may overlap in any way. */
module BulkCopy {

  const WSIZE: nat := 4 // wsize
  type byte = x: int | 0 <= x < 256

  ghost predicate InRange(mem: array<byte>, p: nat, n: nat) {
    p + n <= mem.Length <= 0x1_0000_0000
  }

  /** Memory with the n bytes at src copied over the n bytes at dst. */
  ghost function Copied(m: seq<byte>, dst: nat, src: nat, n: nat): (r: seq<byte>)
    requires dst + n <= |m| && src + n <= |m|
    ensures |r| == |m|
  {
    m[..dst] + m[src..src + n] + m[dst + n..]
  }

  /** The byte that a copy leaves at address a. */
  ghost function After(m0: seq<byte>, dst: nat, src: nat, n: nat, a: nat): byte
    requires dst + n <= |m0| && src + n <= |m0| && a < |m0|
  {
    if dst <= a < dst + n then m0[a - dst + src] else m0[a]
  }

  /** m is m0 with the n bytes at src copied over the n bytes at dst. */
  ghost predicate IsCopy(m0: seq<byte>, m: seq<byte>, dst: nat, src: nat, n: nat)
    requires dst + n <= |m0| && src + n <= |m0|
  {
    |m| == |m0| && forall a: nat :: a < |m| ==> m[a] == After(m0, dst, src, n, a)
  }

  lemma IsCopyDetermines(m0: seq<byte>, m: seq<byte>, dst: nat, src: nat, n: nat)
    requires dst + n <= |m0| && src + n <= |m0|
    ensures IsCopy(m0, m, dst, src, n) <==> m == Copied(m0, dst, src, n)
  {
    var c := Copied(m0, dst, src, n);
    forall a: nat | a < |m0| ensures c[a] == After(m0, dst, src, n, a) {
    }
  }

  /** *(uint32_t*)dst = *(uint32_t*)src: one aligned load, then one aligned store. */
  method CopyWord(mem: array<byte>, dst: nat, src: nat)
    requires InRange(mem, dst, WSIZE) && InRange(mem, src, WSIZE)
    requires dst % WSIZE == 0 && src % WSIZE == 0
    modifies mem
    ensures IsCopy(old(mem[..]), mem[..], dst, src, WSIZE)
  {
    var b0, b1, b2, b3 := mem[src], mem[src + 1], mem[src + 2], mem[src + 3];
    mem[dst], mem[dst + 1], mem[dst + 2], mem[dst + 3] := b0, b1, b2, b3;
  }

  method CopyByte(mem: array<byte>, dst: nat, src: nat)
    requires InRange(mem, dst, 1) && InRange(mem, src, 1)
    modifies mem
    ensures IsCopy(old(mem[..]), mem[..], dst, src, 1)
  {
    mem[dst] := mem[src];
  }

  /** Copies meeting end to end. The part read second must not have been
      overwritten by the first. */
  lemma JoinUp(m0: seq<byte>, m: seq<byte>, m': seq<byte>, dst: nat, src: nat, done: nat,
               dst': nat, src': nat, n: nat, total: nat)
    requires dst' == dst + done && src' == src + done && total == done + n
    requires dst < src && src + total <= |m0| && IsCopy(m0, m, dst, src, done)
    requires IsCopy(m, m', dst', src', n)
    ensures IsCopy(m0, m', dst, src, total)
  {
    forall a: nat | a < |m'| ensures m'[a] == After(m0, dst, src, total, a) {
      assert m'[a] == After(m, dst', src', n, a);
    }
  }

  lemma JoinDown(m0: seq<byte>, m: seq<byte>, m': seq<byte>, dst: nat, src: nat, done: nat,
                 dst': nat, src': nat, n: nat, total: nat)
    requires src < dst && dst + done <= |m0| && IsCopy(m0, m, dst, src, done)
    requires dst' == dst - n && src' == src - n && total == done + n
    requires IsCopy(m, m', dst', src', n)
    ensures IsCopy(m0, m', dst', src', total)
  {
    forall a: nat | a < |m'| ensures m'[a] == After(m0, dst', src', total, a) {
      assert m'[a] == After(m, dst', src', n, a);
    }
  }

  // ----- the TLOOP macros

  method BytesUp(mem: array<byte>, dst: nat, src: nat, n: nat)
    requires InRange(mem, dst, n) && InRange(mem, src, n) && dst < src
    modifies mem
    ensures IsCopy(old(mem[..]), mem[..], dst, src, n)
  {
    var d, s, t := dst, src, n;
    while t > 0
      invariant 0 <= t <= n && d == dst + (n - t) && s == src + (n - t)
      invariant IsCopy(old(mem[..]), mem[..], dst, src, n - t)
    {
      ghost var m := mem[..];
      CopyByte(mem, d, s);
      JoinUp(old(mem[..]), m, mem[..], dst, src, n - t, d, s, 1, n - (t - 1));
      d, s, t := d + 1, s + 1, t - 1;
    }
  }

  method WordsUp(mem: array<byte>, dst: nat, src: nat, n: nat)
    requires InRange(mem, dst, WSIZE * n) && InRange(mem, src, WSIZE * n) && dst < src
    requires n > 0 ==> dst % WSIZE == 0 == src % WSIZE
    modifies mem
    ensures IsCopy(old(mem[..]), mem[..], dst, src, WSIZE * n)
  {
    var d, s, t := dst, src, n;
    while t > 0
      invariant 0 <= t <= n && d == dst + WSIZE * (n - t) && s == src + WSIZE * (n - t)
      invariant IsCopy(old(mem[..]), mem[..], dst, src, WSIZE * (n - t))
    {
      ghost var m := mem[..];
      CopyWord(mem, d, s);
      JoinUp(old(mem[..]), m, mem[..], dst, src, WSIZE * (n - t), d, s, WSIZE, WSIZE * (n - (t - 1)));
      d, s, t := d + WSIZE, s + WSIZE, t - 1;
    }
  }

  /** dst and src point just past the bytes to copy. */
  method BytesDown(mem: array<byte>, dst: nat, src: nat, n: nat) returns (d: nat, s: nat)
    requires n <= src < dst <= mem.Length <= 0x1_0000_0000
    modifies mem
    ensures d == dst - n && s == src - n && IsCopy(old(mem[..]), mem[..], d, s, n)
  {
    d, s := dst, src;
    var t := n;
    while t > 0
      invariant 0 <= t <= n && d == dst - (n - t) && s == src - (n - t)
      invariant IsCopy(old(mem[..]), mem[..], d, s, n - t)
    {
      ghost var m := mem[..];
      CopyByte(mem, d - 1, s - 1);
      JoinDown(old(mem[..]), m, mem[..], d, s, n - t, d - 1, s - 1, 1, n - (t - 1));
      d, s, t := d - 1, s - 1, t - 1;
    }
  }

  method WordsDown(mem: array<byte>, dst: nat, src: nat, n: nat) returns (d: nat, s: nat)
    requires WSIZE * n <= src < dst <= mem.Length <= 0x1_0000_0000
    requires n > 0 ==> dst % WSIZE == 0 == src % WSIZE
    modifies mem
    ensures d == dst - WSIZE * n && s == src - WSIZE * n && IsCopy(old(mem[..]), mem[..], d, s, WSIZE * n)
  {
    d, s := dst, src;
    var t := n;
    while t > 0
      invariant 0 <= t <= n && d == dst - WSIZE * (n - t) && s == src - WSIZE * (n - t)
      invariant IsCopy(old(mem[..]), mem[..], d, s, WSIZE * (n - t))
    {
      ghost var m := mem[..];
      CopyWord(mem, d - WSIZE, s - WSIZE);
      JoinDown(old(mem[..]), m, mem[..], d, s, WSIZE * (n - t), d - WSIZE, s - WSIZE, WSIZE, WSIZE * (n - (t - 1)));
      d, s, t := d - WSIZE, s - WSIZE, t - 1;
    }
  }

  // ----- memcpy

  /** Whole words, then the trailing bytes. */
  method WordsThenBytesUp(mem: array<byte>, dst: nat, src: nat, length: nat)
    requires InRange(mem, dst, length) && InRange(mem, src, length) && dst < src
    requires length >= WSIZE ==> dst % WSIZE == 0 == src % WSIZE
    modifies mem
    ensures IsCopy(old(mem[..]), mem[..], dst, src, length)
  {
    var t := length / WSIZE;
    WordsUp(mem, dst, src, t);
    ghost var m, done := mem[..], WSIZE * t;
    var d, s := dst + WSIZE * t, src + WSIZE * t;
    t := length % WSIZE;
    BytesUp(mem, d, s, t);
    JoinUp(old(mem[..]), m, mem[..], dst, src, done, d, s, t, length);
  }

  method CopyForward(mem: array<byte>, dst0: nat, src0: nat, length0: nat)
    requires InRange(mem, dst0, length0) && InRange(mem, src0, length0) && dst0 < src0 && length0 > 0
    modifies mem
    ensures IsCopy(old(mem[..]), mem[..], dst0, src0, length0)
  {
    var dst, src, length := dst0, src0, length0;
    var t := src;
    if t % WSIZE != 0 || dst % WSIZE != 0 {
      if t % WSIZE != dst % WSIZE || length < WSIZE {
        t := length;
      } else {
        t := WSIZE - t % WSIZE;
      }
      length := length - t;
      BytesUp(mem, dst, src, t);
      dst, src := dst + t, src + t;
    }
    ghost var m, done := mem[..], length0 - length;
    WordsThenBytesUp(mem, dst, src, length);
    JoinUp(old(mem[..]), m, mem[..], dst0, src0, done, dst, src, length, length0);
  }

  /** The same downwards; dst and src point just past the bytes to copy. */
  method WordsThenBytesDown(mem: array<byte>, dst: nat, src: nat, length: nat)
    requires length <= src < dst <= mem.Length <= 0x1_0000_0000
    requires length >= WSIZE ==> dst % WSIZE == 0 == src % WSIZE
    modifies mem
    ensures IsCopy(old(mem[..]), mem[..], dst - length, src - length, length)
  {
    var t := length / WSIZE;
    var d, s := WordsDown(mem, dst, src, t);
    ghost var m, d1, s1, done := mem[..], d, s, WSIZE * t;
    t := length % WSIZE;
    d, s := BytesDown(mem, d, s, t);
    JoinDown(old(mem[..]), m, mem[..], d1, s1, done, d, s, t, length);
  }

  method CopyBackward(mem: array<byte>, dst0: nat, src0: nat, length0: nat)
    requires InRange(mem, dst0, length0) && InRange(mem, src0, length0) && src0 < dst0 && length0 > 0
    modifies mem
    ensures IsCopy(old(mem[..]), mem[..], dst0, src0, length0)
  {
    var length := length0;
    var src, dst := src0 + length, dst0 + length;
    var t := src;
    if t % WSIZE != 0 || dst % WSIZE != 0 {
      if t % WSIZE != dst % WSIZE || length <= WSIZE {
        t := length;
      } else {
        t := t % WSIZE;
      }
      length := length - t;
      dst, src := BytesDown(mem, dst, src, t);
    }
    ghost var m, done := mem[..], length0 - length;
    WordsThenBytesDown(mem, dst, src, length);
    JoinDown(old(mem[..]), m, mem[..], dst, src, done, dst0, src0, length, length0);
  }

  method Memcpy(mem: array<byte>, dst: nat, src: nat, length: nat)
    requires InRange(mem, dst, length) && InRange(mem, src, length)
    modifies mem
    ensures mem[..] == Copied(old(mem[..]), dst, src, length)
  {
    if length == 0 || dst == src {
    } else if dst < src {
      CopyForward(mem, dst, src, length);
    } else {
      CopyBackward(mem, dst, src, length);
    }
    IsCopyDetermines(old(mem[..]), mem[..], dst, src, length);
  }

  // ----- memset

  ghost predicate Filled(m0: seq<byte>, m: seq<byte>, s: nat, n: nat, c: byte) {
    |m| == |m0| && forall a :: 0 <= a < |m| ==> m[a] == if s <= a < s + n then c else m0[a]
  }

  /** head and tail bytes first, overlapping as they may; then the aligned words in
      between cover every byte left over. */
  method Memset(mem: array<byte>, s0: nat, value: int, n0: nat)
    requires InRange(mem, s0, n0)
    modifies mem
    ensures Filled(old(mem[..]), mem[..], s0, n0, value % 256)
  {
    var s, n: nat, c: byte := s0, n0, value % 256;
    if n == 0 { return; }
    mem[s], mem[s + n - 1] := c, c;
    if n <= 2 { return; }
    mem[s + 1], mem[s + n - 2] := c, c;
    mem[s + 2], mem[s + n - 3] := c, c;
    if n <= 6 { return; }
    mem[s + 3], mem[s + n - 4] := c, c;
    if n <= 8 { return; }
    ghost var m1 := mem[..];
    var k := (-s) % 4;
    s := s + k;
    n := (n - k) / 4;
    FillWords(mem, s, n, c);
  }

  method FillWords(mem: array<byte>, s: nat, n: nat, c: byte)
    requires InRange(mem, s, 4 * n) && s % 4 == 0
    modifies mem
    ensures Filled(old(mem[..]), mem[..], s, 4 * n, c)
  {
    for i := 0 to n
      invariant Filled(old(mem[..]), mem[..], s, 4 * i, c)
    {
      StoreWord(mem, s + 4 * i, c);
    }
  }

  /** *ws = wc, the byte c repeated, on an aligned address. */
  method StoreWord(mem: array<byte>, s: nat, c: byte)
    requires InRange(mem, s, 4) && s % 4 == 0
    modifies mem
    ensures Filled(old(mem[..]), mem[..], s, 4, c)
  {
    mem[s], mem[s + 1], mem[s + 2], mem[s + 3] := c, c, c, c;
  }
}
