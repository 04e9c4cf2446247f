/** Machine words and C strings as the kernel sees them. */
module Bytes {
  type byte = b: int | 0 <= b < 256
  type u32 = w: int | 0 <= w < 0x1_0000_0000
  type u64 = w: int | 0 <= w < 0x1_0000_0000_0000_0000

  const NUL: byte := 0
  const BACKSPACE: byte := 8
  const NEWLINE: byte := 10
  const SPACE: byte := 32
  const DOT: byte := 46
  const SLASH: byte := 47

  datatype Option<+T> = None | Some(value: T)

  /** Plain `char` is signed on this target. */
  function Signed(b: byte): int {
    if b < 128 then b else b - 256
  }

  /** Memory as a byte sequence; whatever lies past its end reads as NUL. */
  function At(mem: seq<byte>, p: nat): byte {
    if p < |mem| then mem[p] else NUL
  }

  /** The C string starting at p: the bytes before the first NUL. */
  function CStr(mem: seq<byte>, p: nat): seq<byte>
    decreases |mem| - p
  {
    if At(mem, p) == NUL then [] else [mem[p]] + CStr(mem, p + 1)
  }

  /** It copies memory up to the first NUL. */
  lemma {:induction false} CStrIs(mem: seq<byte>, p: nat)
    ensures var s := CStr(mem, p);
            && (forall k :: 0 <= k < |s| ==> s[k] == At(mem, p + k))
            && (forall k :: p <= k < p + |s| ==> At(mem, k) != NUL)
            && At(mem, p + |s|) == NUL
            && NUL !in s
    decreases |mem| - p
  {
    if At(mem, p) != NUL {
      CStrIs(mem, p + 1);
    }
  }

  /** From its start on, memory reads as the string. */
  lemma CStrReads(mem: seq<byte>)
    ensures var s := CStr(mem, 0);
            NUL !in s && forall k: nat {:trigger At(mem, k)} :: k <= |s| ==> At(mem, k) == if k < |s| then s[k] else NUL
  {
    CStrIs(mem, 0);
    var s := CStr(mem, 0);
    forall k: nat | k <= |s|
      ensures At(mem, k) == if k < |s| then s[k] else NUL
    {
      assert k < |s| ==> s[k] == At(mem, 0 + k);
    }
  }

  /** And nothing else does. */
  lemma {:induction false} CStrUnique(mem: seq<byte>, p: nat, s: seq<byte>)
    requires NUL !in s
    requires forall k :: 0 <= k < |s| ==> s[k] == At(mem, p + k)
    requires At(mem, p + |s|) == NUL
    ensures CStr(mem, p) == s
    decreases |s|
  {
    if s != [] {
      assert s[0] == At(mem, p);
      forall k | 0 <= k < |s[1..]|
        ensures s[1..][k] == At(mem, p + 1 + k)
      {
        assert s[1..][k] == s[k + 1];
      }
      CStrUnique(mem, p + 1, s[1..]);
    }
  }

  lemma CStrSlice(mem: seq<byte>, p: nat, s: seq<byte>)
    requires p + |s| < |mem| && mem[p..p + |s|] == s && mem[p + |s|] == NUL && NUL !in s
    ensures CStr(mem, p) == s
  {
    forall k | 0 <= k < |s|
      ensures s[k] == At(mem, p + k)
    {
      assert mem[p..p + |s|][k] == mem[p + k];
    }
    CStrUnique(mem, p, s);
  }

  /** n bytes of memory from p on. */
  function Taken(mem: seq<byte>, p: nat, n: nat): (s: seq<byte>)
    ensures |s| == n
  {
    seq<byte>(n, k requires 0 <= k < n => At(mem, p + k))
  }

  lemma CStrShift(mem: seq<byte>, p: nat)
    requires p <= |mem|
    ensures CStr(mem[p..], 0) == CStr(mem, p)
  {
    var s := CStr(mem, p);
    CStrIs(mem, p);
    forall k: nat
      ensures At(mem[p..], k) == At(mem, p + k)
    {
    }
    CStrUnique(mem[p..], 0, s);
  }

  /** A string literal as the bytes the compiler emits for it. */
  function Ascii(s: string): (r: seq<byte>)
    requires forall k :: 0 <= k < |s| ==> s[k] < 128 as char
    ensures |r| == |s|
    ensures forall k :: 0 <= k < |s| ==> r[k] == s[k] as int
  {
    seq(|s|, k requires 0 <= k < |s| => s[k] as int)
  }

  const WORD := 0x1_0000_0000_0000_0000

  /** What is left of n in 64 bits. */
  function Wrap(n: nat): u64 { n % WORD }

  /** Little-endian halfword and word, as packed structures are read. */
  function U16(s: seq<byte>, off: nat): (w: int)
    requires off + 2 <= |s|
    ensures 0 <= w < 0x1_0000
  {
    s[off] as int + 256 * s[off + 1] as int
  }

  function U32(s: seq<byte>, off: nat): (w: u32)
    requires off + 4 <= |s|
  {
    U16(s, off) + 0x1_0000 * U16(s, off + 2)
  }

  /** The bytes that are not NUL, in order. */
  function NonNul(s: seq<byte>): (r: seq<byte>)
    decreases |s|
  {
    if s == [] then []
    else if s[|s| - 1] == NUL then NonNul(s[..|s| - 1])
    else NonNul(s[..|s| - 1]) + [s[|s| - 1]]
  }

  lemma {:induction false} NonNulHas(s: seq<byte>, c: byte)
    ensures c in NonNul(s) <==> c != NUL && c in s
    decreases |s|
  {
    if s != [] {
      NonNulHas(s[..|s| - 1], c);
      assert s == s[..|s| - 1] + [s[|s| - 1]];
    }
  }

  lemma {:induction false} NonNulSame(s: seq<byte>)
    requires NUL !in s
    ensures NonNul(s) == s
    decreases |s|
  {
    if s != [] {
      NonNulSame(s[..|s| - 1]);
    }
  }

  lemma NonNulSnoc(s: seq<byte>, c: byte)
    ensures NonNul(s + [c]) == if c == NUL then NonNul(s) else NonNul(s) + [c]
  {
    assert (s + [c])[..|s|] == s;
  }

  lemma {:induction false} NonNulConcat(a: seq<byte>, b: seq<byte>)
    ensures NonNul(a + b) == NonNul(a) + NonNul(b)
    decreases |b|
  {
    if b == [] {
      assert a + b == a;
    } else {
      assert (a + b)[..|a + b| - 1] == a + b[..|b| - 1];
      NonNulConcat(a, b[..|b| - 1]);
    }
  }
}
