/**
  Bytes, C integers and memory as the firmware sees them on its 32-bit little-endian
  processor.
 */
module Bytes {
  type byte = x: int | 0 <= x < 256

  /** A C string, without its terminating NUL. */
  type CString = s: seq<byte> | 0 !in s

  datatype Option<+T> = None | Some(value: T)

  const INT_MAX := 0x7fff_ffff
  const WORD := 0x1_0000_0000

  predicate IsInt32(n: int) {
    -INT_MAX - 1 <= n <= INT_MAX
  }

  /** The 32-bit two's complement value with the same low 32 bits as n. */
  function Wrap32(n: int): (r: int)
    ensures IsInt32(r) && (IsInt32(n) ==> r == n)
  {
    var m := n % WORD;
    if m <= INT_MAX then m else m - WORD
  }

  function LE32(n: int): (r: seq<byte>)
    ensures |r| == 4
  {
    var u := n % WORD;
    [u % 256, u / 256 % 256, u / 256 / 256 % 256, u / 256 / 256 / 256]
  }

  /** Memory read. What lies past the end of a buffer reads as zero. */
  function Peek(mem: seq<byte>, i: nat): byte {
    if i < |mem| then mem[i] else 0
  }

  function Slice(mem: seq<byte>, at: nat, n: nat): (r: seq<byte>)
    ensures |r| == n
  {
    seq<byte>(n, i requires 0 <= i => Peek(mem, at + i))
  }

  function FromLE32(b0: byte, b1: byte, b2: byte, b3: byte): int {
    Wrap32(b0 + 0x100 * b1 + 0x1_0000 * b2 + 0x100_0000 * b3)
  }

  function ReadInt(mem: seq<byte>, at: nat): (r: int)
    ensures IsInt32(r)
  {
    FromLE32(Peek(mem, at), Peek(mem, at + 1), Peek(mem, at + 2), Peek(mem, at + 3))
  }

  /** strnlen: the number of bytes before the first NUL, at most n. */
  function StrNLen(mem: seq<byte>, at: nat, n: nat): (r: nat)
    ensures r <= n
    decreases n
  {
    if n == 0 || Peek(mem, at) == 0 then 0 else 1 + StrNLen(mem, at + 1, n - 1)
  }

  /** part is what mem holds from offset at on. */
  predicate HoldsAt(mem: seq<byte>, at: nat, part: seq<byte>) {
    at + |part| <= |mem| && mem[at..at + |part|] == part
  }

  lemma ReadIntLE32(mem: seq<byte>, at: nat, n: int)
    requires HoldsAt(mem, at, LE32(n))
    ensures ReadInt(mem, at) == Wrap32(n)
  {
    var part := LE32(n);
    assert mem[at..at + 4][0] == part[0] && mem[at..at + 4][1] == part[1];
    assert mem[at..at + 4][2] == part[2] && mem[at..at + 4][3] == part[3];
  }

  lemma HoldsAtPart(mem: seq<byte>, at: nat, pre: seq<byte>, part: seq<byte>, post: seq<byte>)
    requires HoldsAt(mem, at, pre + part + post)
    ensures HoldsAt(mem, at + |pre|, part)
  {
    var all := pre + part + post;
    forall i | 0 <= i < |part| ensures mem[at + |pre| + i] == part[i] {
      assert mem[at..at + |all|][|pre| + i] == all[|pre| + i];
    }
    assert mem[at + |pre|..at + |pre| + |part|] == part;
  }

  lemma SliceOfHeld(mem: seq<byte>, at: nat, part: seq<byte>)
    requires HoldsAt(mem, at, part)
    ensures Slice(mem, at, |part|) == part
  {
    forall i | 0 <= i < |part| ensures Peek(mem, at + i) == part[i] {
      assert mem[at..at + |part|][i] == part[i];
    }
  }

  /** A NUL-terminated string in memory: its bytes, its terminator, its strnlen. */
  lemma {:induction false} CStringAt(mem: seq<byte>, at: nat, s: CString, n: nat)
    requires HoldsAt(mem, at, s + [0])
    requires |s| < n
    ensures StrNLen(mem, at, n) == |s|
    ensures Slice(mem, at, |s|) == s && Peek(mem, at + |s|) == 0
    decreases |s|
  {
    assert s + [0] == [] + s + [0];
    HoldsAtPart(mem, at, [], s, [0]);
    SliceOfHeld(mem, at, s);
    assert mem[at..at + |s| + 1][|s|] == (s + [0])[|s|];
    if s != [] {
      assert s[0] in s && mem[at..at + |s|][0] == s[0];
      var rest: CString := s[1..];
      assert s + [0] == [s[0]] + (rest + [0]) + [];
      HoldsAtPart(mem, at, [s[0]], rest + [0], []);
      CStringAt(mem, at + 1, rest, n - 1);
    }
  }

  /** strnlen stops at the first NUL, or at the limit. */
  lemma {:induction false} StrNLenStops(mem: seq<byte>, at: nat, n: nat)
    ensures forall i :: at <= i < at + StrNLen(mem, at, n) ==> Peek(mem, i) != 0
    ensures StrNLen(mem, at, n) < n ==> Peek(mem, at + StrNLen(mem, at, n)) == 0
    decreases n
  {
    if n > 0 && Peek(mem, at) != 0 {
      StrNLenStops(mem, at + 1, n - 1);
    }
  }

  /** strnlen of a string that is terminated before the limit. */
  lemma {:induction false} StrNLenIs(mem: seq<byte>, at: nat, n: nat, s: CString)
    requires Slice(mem, at, |s|) == s && Peek(mem, at + |s|) == 0 && |s| < n
    ensures StrNLen(mem, at, n) == |s|
    decreases |s|
  {
    hide Peek;
    if s != [] {
      var rest: CString := s[1..];
      assert s[0] in s && Slice(mem, at, |s|)[0] == Peek(mem, at + 0);
      assert Slice(mem, at + 1, |rest|) == Slice(mem, at, |s|)[1..];
      StrNLenIs(mem, at + 1, n - 1, rest);
    }
  }
}
