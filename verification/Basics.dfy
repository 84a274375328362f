/** Values shared by every part of the model. */
module Basics {

  datatype Option<+T> = None | Some(value: T) {
    function GetOr(default: T): T {
      if None? then default else value
    }
  }

  datatype Result<+T, +E> = Ok(value: T) | Err(error: E)

  type byte = x: int | 0 <= x < 256

  const TWO_32: int := 0x1_0000_0000

  /** A second; all times are in nanoseconds. */
  const SECOND: int := 1_000_000_000

  /** The places of a peer's notify queue. */
  const NOTIFY_CAPACITY := 16

  lemma Digits(n: nat)
    ensures n == ((n / 0x100_0000 * 256 + n / 0x1_0000 % 256) * 256 + n / 256 % 256) * 256 + n % 256
  {
    assert n / 256 == n / 0x1_0000 * 256 + n / 256 % 256;
    assert n / 0x1_0000 == n / 0x100_0000 * 256 + n / 0x1_0000 % 256;
  }

  /** The four big-endian bytes of a uint32: its digits to base 256, the most significant first. */
  function PutUint32(n: nat): (b: seq<byte>)
    requires n < TWO_32
    ensures |b| == 4
    ensures n == ((b[0] as int * 256 + b[1] as int) * 256 + b[2] as int) * 256 + b[3] as int
  {
    Digits(n);
    [n / 0x100_0000, n / 0x1_0000 % 256, n / 256 % 256, n % 256]
  }

  /** The uint32 four big-endian bytes stand for. */
  function Uint32(b: seq<byte>): (n: nat)
    requires |b| == 4
    ensures n < TWO_32
  {
    b[0] as int * 0x100_0000 + b[1] as int * 0x1_0000 + b[2] as int * 256 + b[3] as int
  }

  lemma Uint32OfPut(n: nat)
    requires n < TWO_32
    ensures Uint32(PutUint32(n)) == n
  {
    Digits(n);
  }

  lemma PutOfUint32(b: seq<byte>)
    requires |b| == 4
    ensures PutUint32(Uint32(b)) == b
  {
    var n := Uint32(b);
    assert n / 256 == b[0] as int * 0x1_0000 + b[1] as int * 256 + b[2] as int;
    assert n / 0x1_0000 == b[0] as int * 256 + b[1] as int;
    assert n / 0x100_0000 == b[0];
  }

  /** The integers lo, lo+1, ..., hi-1. */
  function Range(lo: int, hi: int): (s: set<int>)
    ensures forall x :: x in s <==> lo <= x < hi
    ensures |s| == if lo < hi then hi - lo else 0
    decreases hi - lo
  {
    if hi <= lo then {} else Range(lo, hi - 1) + {hi - 1}
  }

  /** An injective function keeps the size of a set. */
  lemma {:induction false} ImageSize<A, B>(s: set<A>, image: set<B>, f: A -> B)
    requires forall a :: a in s ==> f(a) in image
    requires forall b :: b in image ==> exists a :: a in s && f(a) == b
    requires forall a, b :: a in s && b in s && f(a) == f(b) ==> a == b
    ensures |image| == |s|
    decreases s
  {
    if s == {} {
      assert image == {};
    } else {
      var x :| x in s;
      ImageSize(s - {x}, image - {f(x)}, f);
    }
  }

  lemma {:induction false} SubsetSize<T>(a: set<T>, b: set<T>)
    requires a <= b
    ensures |a| <= |b|
    ensures |a| == |b| ==> a == b
    decreases a
  {
    if a != {} {
      var x :| x in a;
      SubsetSize(a - {x}, b - {x});
    }
  }
}
