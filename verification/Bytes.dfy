/** Bytes in memory on a little-endian host, and the byte swaps of lo_endian.h. */
module Bytes {
  type byte = b: int | 0 <= b < 256

  const TWO_TO_THE_32: nat := 0x1_0000_0000

  function Zeros(n: nat): (z: seq<byte>)
    ensures |z| == n
    ensures forall i | 0 <= i < n :: z[i] == 0
  {
    seq(n, _ => 0)
  }

  // The memory image of a uint32_t, least significant byte first; higher bits are cut off.
  function Image32(n: nat): (w: seq<byte>)
    ensures |w| == 4
  {
    [n % 256, n / 256 % 256, n / 256 / 256 % 256, n / 256 / 256 / 256 % 256]
  }

  // The uint32_t whose memory image is w.
  function Value32(w: seq<byte>): (n: nat)
    requires |w| == 4
    ensures n < TWO_TO_THE_32
  {
    var a: int, b: int, c: int, d: int := w[0], w[1], w[2], w[3];
    a + 256 * b + 65536 * c + 16777216 * d
  }

  // lo_swap32 (htonl) on the four bytes of a word.
  function Swap32(w: seq<byte>): (s: seq<byte>)
    requires |w| == 4
    ensures |s| == 4
  {
    [w[3], w[2], w[1], w[0]]
  }

  // lo_swap64: both halves swapped, and exchanged.
  function Swap64(w: seq<byte>): (s: seq<byte>)
    requires |w| == 8
    ensures |s| == 8
  {
    Swap32(w[4..]) + Swap32(w[..4])
  }

  // lo_htoo32 of a number, as the bytes it leaves in memory.
  function Network32(n: nat): (w: seq<byte>)
    ensures |w| == 4
  {
    Swap32(Image32(n))
  }

  // lo_otoh32 of the first four bytes in memory.
  function ReadNetwork32(s: seq<byte>): (n: nat)
    requires |s| >= 4
    ensures n < TWO_TO_THE_32
  {
    Value32(Swap32(s[..4]))
  }

  lemma ValueOfImage(n: nat)
    requires n < TWO_TO_THE_32
    ensures Value32(Image32(n)) == n
  {
    var a := n / 256;
    var b := a / 256;
    var c := b / 256;
    assert n == n % 256 + 256 * a && a == a % 256 + 256 * b && b == b % 256 + 256 * c;
  }

  lemma ImageOfValue(w: seq<byte>)
    requires |w| == 4
    ensures Image32(Value32(w)) == w
  {
    var n := Value32(w);
    var b: int, c: int, d: int := w[1], w[2], w[3];
    assert n / 256 == b + 256 * c + 65536 * d;
    assert n / 256 / 256 == c + 256 * d;
    assert n / 256 / 256 / 256 == d;
  }

  lemma Network32RoundTrip(n: nat, rest: seq<byte>)
    requires n < TWO_TO_THE_32
    ensures ReadNetwork32(Network32(n) + rest) == n
  {
    ValueOfImage(n);
    assert (Network32(n) + rest)[..4] == Network32(n);
    assert Swap32(Network32(n)) == Image32(n);
  }

  lemma Network32Canonical(s: seq<byte>)
    requires |s| >= 4
    ensures Network32(ReadNetwork32(s)) == s[..4]
  {
    ImageOfValue(Swap32(s[..4]));
  }

  // ---- What the bytes of a number mean, by their places alone ----

  function BigEndian(s: seq<byte>): (n: nat) {
    if s == [] then 0 else 256 * BigEndian(s[..|s| - 1]) + s[|s| - 1]
  }

  function LittleEndian(s: seq<byte>): (n: nat) {
    if s == [] then 0 else s[0] + 256 * LittleEndian(s[1..])
  }

  lemma FourBytes(s: seq<byte>)
    requires |s| == 4
    ensures var a: int, b: int, c: int, d: int := s[0], s[1], s[2], s[3];
      && BigEndian(s) == 16777216 * a + 65536 * b + 256 * c + d
      && LittleEndian(s) == a + 256 * b + 65536 * c + 16777216 * d
  {
    hide BigEndian, LittleEndian;
    NoBytes();
    BigEndianSnoc(s[..3], s[3]);
    BigEndianSnoc(s[..2], s[2]);
    BigEndianSnoc(s[..1], s[1]);
    BigEndianSnoc([], s[0]);
    assert s == s[..3] + [s[3]] && s[..3] == s[..2] + [s[2]] && s[..2] == s[..1] + [s[1]] && s[..1] == [] + [s[0]];
    LittleEndianCons(s[3], []);
    LittleEndianCons(s[2], s[3..]);
    LittleEndianCons(s[1], s[2..]);
    LittleEndianCons(s[0], s[1..]);
    assert s == [s[0]] + s[1..] && s[1..] == [s[1]] + s[2..] && s[2..] == [s[2]] + s[3..] && s[3..] == [s[3]] + [];
  }

  lemma LittleEndianCons(b: byte, s: seq<byte>)
    ensures LittleEndian([b] + s) == b + 256 * LittleEndian(s)
  {
    assert ([b] + s)[1..] == s;
  }

  lemma NoBytes()
    ensures BigEndian([]) == LittleEndian([]) == 0
  {
  }

  lemma BigEndianSnoc(s: seq<byte>, b: byte)
    ensures BigEndian(s + [b]) == 256 * BigEndian(s) + b
  {
    assert (s + [b])[..|s|] == s;
  }

  // A number's bytes in the other order stand for the same number read from the other end.
  lemma {:induction false} ReversedMeaning(w: seq<byte>, s: seq<byte>)
    requires |w| == |s| && forall i | 0 <= i < |w| :: s[i] == w[|w| - 1 - i]
    ensures BigEndian(s) == LittleEndian(w)
  {
    if w != [] {
      ReversedMeaning(w[1..], s[..|s| - 1]);
    }
  }

  lemma {:induction false} BigEndianInjective(s: seq<byte>, t: seq<byte>)
    requires |s| == |t| && BigEndian(s) == BigEndian(t)
    ensures s == t
  {
    if s != [] {
      var n := |s| - 1;
      var u, v := BigEndian(s[..n]), BigEndian(t[..n]);
      assert 256 * (u - v) == t[n] - s[n];
      BigEndianInjective(s[..n], t[..n]);
      assert s == s[..n] + [s[n]] && t == t[..n] + [t[n]];
    }
  }

  /** Network order is big-endian and host order little-endian, for words written and for words read. */
  lemma NetworkIsBigEndian(n: nat, s: seq<byte>)
    requires n < TWO_TO_THE_32
    ensures LittleEndian(Image32(n)) == n && BigEndian(Network32(n)) == n
    ensures |s| >= 4 ==> ReadNetwork32(s) == BigEndian(s[..4])
  {
    ValueOfImage(n);
    FourBytes(Image32(n));
    FourBytes(Network32(n));
    if |s| >= 4 {
      FourBytes(s[..4]);
    }
  }

  lemma Swap64Reverses(w: seq<byte>)
    requires |w| == 8
    ensures forall i | 0 <= i < 8 :: Swap64(w)[i] == w[7 - i]
  {
    var s := Swap64(w);
    assert s[..4] == Swap32(w[4..]) && s[4..] == Swap32(w[..4]);
    forall i | 0 <= i < 8 ensures s[i] == w[7 - i] {
      if i < 4 {
        assert s[i] == s[..4][i] == w[4..][3 - i];
      } else {
        assert s[i] == s[4..][i - 4] == w[..4][7 - i];
      }
    }
  }

  /** Both swaps turn the host's number into the same number in network order. */
  lemma SwapsReverse(w: seq<byte>)
    ensures |w| == 4 ==> BigEndian(Swap32(w)) == LittleEndian(w)
    ensures |w| == 8 ==> BigEndian(Swap64(w)) == LittleEndian(w)
  {
    hide Swap64, BigEndian, LittleEndian;
    if |w| == 4 {
      ReversedMeaning(w, Swap32(w));
    } else if |w| == 8 {
      Swap64Reverses(w);
      ReversedMeaning(w, Swap64(w));
    }
  }

  // Both swaps undo themselves; the round trips need no more of them.
  lemma SwapsAreInvolutions(w: seq<byte>)
    ensures |w| == 4 ==> Swap32(Swap32(w)) == w
    ensures |w| == 8 ==> Swap64(Swap64(w)) == w
  {
    if |w| == 8 {
      assert Swap64(w)[4..] == Swap32(w[..4]);
      assert Swap64(w)[..4] == Swap32(w[4..]);
    }
  }

  predicate Cleared(s: seq<byte>, lo: nat, hi: nat)
    requires lo <= hi <= |s|
  {
    forall k | lo <= k < hi :: s[k] == 0
  }

  lemma Assoc<T>(a: seq<T>, b: seq<T>, c: seq<T>)
    ensures (a + b) + c == a + (b + c)
  {
  }

  lemma SplitAt<T>(s: seq<T>, t: seq<T>)
    ensures (s + t)[..|s|] == s && (s + t)[|s|..] == t
  {
  }
}
