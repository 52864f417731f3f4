/** Bytes, and the fixed-width integers that the C headers and the PNG chunks store in them. */
module Bytes {

  type byte = n: nat | n < 256

  // One more than the largest value of the 64-bit unsigned long and size_t.
  const WORD: nat := 0x1_0000_0000_0000_0000

  function Pow256(k: nat): (r: nat)
    ensures r > 0
  {
    if k == 0 then 1 else 256 * Pow256(k - 1)
  }

  // The number that a little-endian machine reads from s.
  function LittleEndian(s: seq<byte>): nat {
    if s == [] then 0 else s[0] + 256 * LittleEndian(s[1..])
  }

  // The k bytes that a little-endian machine stores for v.
  function ToLittleEndian(v: nat, k: nat): (s: seq<byte>)
    ensures |s| == k
  {
    if k == 0 then [] else [v % 256] + ToLittleEndian(v / 256, k - 1)
  }

  lemma {:induction false} LittleEndianRoundTrip(v: nat, k: nat)
    requires v < Pow256(k)
    ensures LittleEndian(ToLittleEndian(v, k)) == v
  {
    if k > 0 {
      LittleEndianRoundTrip(v / 256, k - 1);
      assert ToLittleEndian(v, k)[1..] == ToLittleEndian(v / 256, k - 1);
    }
  }

  // struct.unpack(">I", s) for a sequence of any width.
  function BigEndian(s: seq<byte>): nat {
    if s == [] then 0 else 256 * BigEndian(s[..|s| - 1]) + s[|s| - 1]
  }

  // struct.pack(">I", v) for any width k.
  function ToBigEndian(v: nat, k: nat): (s: seq<byte>)
    ensures |s| == k
  {
    if k == 0 then [] else ToBigEndian(v / 256, k - 1) + [v % 256]
  }

  lemma {:induction false} BigEndianRoundTrip(v: nat, k: nat)
    requires v < Pow256(k)
    ensures BigEndian(ToBigEndian(v, k)) == v
  {
    if k > 0 {
      BigEndianRoundTrip(v / 256, k - 1);
      assert ToBigEndian(v, k)[..k - 1] == ToBigEndian(v / 256, k - 1);
    }
  }

  // What the two byte orders mean: one byte is its own value, and of two parts side by side the
  // second counts for more in the one order, the first in the other.
  lemma {:induction false} LittleEndianParts(s: seq<byte>, t: seq<byte>)
    ensures |s| == 1 ==> LittleEndian(s) == s[0]
    ensures LittleEndian(s + t) == LittleEndian(s) + Pow256(|s|) * LittleEndian(t)
  {
    if s == [] {
      assert s + t == t;
    } else {
      assert (s + t)[1..] == s[1..] + t;
      LittleEndianParts(s[1..], t);
      LowPart(s[0], LittleEndian(s[1..]), Pow256(|s| - 1), LittleEndian(t));
    }
  }

  lemma {:induction false} BigEndianParts(s: seq<byte>, t: seq<byte>)
    ensures |t| == 1 ==> BigEndian(t) == t[0]
    ensures BigEndian(s + t) == BigEndian(s) * Pow256(|t|) + BigEndian(t)
    decreases |t|
  {
    if t == [] {
      assert s + t == s;
    } else {
      var u := t[..|t| - 1];
      assert (s + t)[..|s| + |t| - 1] == s + u;
      BigEndianParts(s, u);
      HighPart(BigEndian(s), Pow256(|u|), BigEndian(u), t[|u|]);
    }
  }

  lemma LowPart(d: nat, s: nat, p: nat, t: nat)
    ensures d + 256 * (s + p * t) == d + 256 * s + 256 * p * t
  {
  }

  lemma HighPart(s: nat, p: nat, t: nat, d: nat)
    ensures 256 * (s * p + t) + d == s * (256 * p) + (256 * t + d)
  {
  }

  lemma PowersOf256()
    ensures Pow256(4) == 0x1_0000_0000
    ensures Pow256(8) == WORD
  {
    assert Pow256(2) == 0x1_0000;
    assert Pow256(4) == 256 * (256 * Pow256(2));
    assert Pow256(6) == 256 * (256 * Pow256(4));
    assert Pow256(8) == 256 * (256 * Pow256(6));
  }

  // The k-byte integer at address a.
  function Load(m: seq<byte>, a: nat, k: nat): nat
    requires a + k <= |m|
  {
    LittleEndian(m[a..a + k])
  }

  // Memory with s written at address a.
  function Patch(m: seq<byte>, a: nat, s: seq<byte>): (r: seq<byte>)
    requires a + |s| <= |m|
    ensures |r| == |m|
  {
    m[..a] + s + m[a + |s|..]
  }

  function Store(m: seq<byte>, a: nat, k: nat, v: nat): (r: seq<byte>)
    requires a + k <= |m|
    ensures |r| == |m|
  {
    Patch(m, a, ToLittleEndian(v, k))
  }

  lemma SubSlice(m: seq<byte>, a: nat, b: nat, c: nat, d: nat)
    requires a <= c <= d <= b <= |m|
    ensures m[a..b][c - a..d - a] == m[c..d]
  {
    var s, t := m[a..b][c - a..d - a], m[c..d];
    assert |s| == |t|;
    assert forall i :: 0 <= i < |t| ==> s[i] == m[a..b][c - a + i] == m[c + i] == t[i];
  }

  // A write shows up where it was made ...
  lemma PatchHere(m: seq<byte>, a: nat, s: seq<byte>)
    requires a + |s| <= |m|
    ensures Patch(m, a, s)[a..a + |s|] == s
  {
  }

  // ... and nowhere else.
  lemma PatchOutside(m: seq<byte>, a: nat, s: seq<byte>, lo: nat, hi: nat)
    requires a + |s| <= |m| && lo <= hi <= |m|
    requires hi <= a || a + |s| <= lo
    ensures Patch(m, a, s)[lo..hi] == m[lo..hi]
  {
  }

  // A write inside a stretch of memory is the same write made to the stretch.
  lemma PatchWithin(m: seq<byte>, p: nat, n: nat, offset: nat, s: seq<byte>)
    requires p + n <= |m| && offset + |s| <= n
    ensures Patch(m, p + offset, s)[p..p + n] == Patch(m[p..p + n], offset, s)
  {
  }

  lemma StoreHere(m: seq<byte>, a: nat, k: nat, v: nat)
    requires a + k <= |m|
    requires v < Pow256(k)
    ensures Load(Store(m, a, k, v), a, k) == v
  {
    LittleEndianRoundTrip(v, k);
    PatchHere(m, a, ToLittleEndian(v, k));
  }

  // A store does not change what is read elsewhere.
  lemma StoreOutside(m: seq<byte>, a: nat, k: nat, v: nat, b: nat, j: nat)
    requires a + k <= |m| && b + j <= |m|
    requires b + j <= a || a + k <= b
    ensures Load(Store(m, a, k, v), b, j) == Load(m, b, j)
  {
    PatchOutside(m, a, ToLittleEndian(v, k), b, b + j);
  }

  // What is read depends only on the bytes read.
  lemma LoadFrame(m: seq<byte>, m': seq<byte>, lo: nat, hi: nat, a: nat, k: nat)
    requires lo <= a && a + k <= hi <= |m| && hi <= |m'|
    requires m'[lo..hi] == m[lo..hi]
    ensures Load(m', a, k) == Load(m, a, k)
  {
    SubSlice(m, lo, hi, a, a + k);
    SubSlice(m', lo, hi, a, a + k);
  }

  // A store below b is a store into the part below b.
  lemma StorePrefix(m: seq<byte>, b: nat, a: nat, k: nat, v: nat)
    requires a + k <= b <= |m|
    ensures Store(m, a, k, v)[..b] == Store(m[..b], a, k, v)
  {
  }

  function Wrapped(k: nat, v: nat): nat {
    k * WORD + v
  }

  // v is what the machine keeps of n in 64 bits.
  ghost predicate Truncates(n: nat, v: nat) {
    v < WORD && exists k: nat :: Wrapped(k, v) == n
  }

  lemma TruncatedValue(n: nat, v: nat)
    requires Truncates(n, v)
    ensures n < WORD ==> v == n
    ensures v <= n
  {
  }

  lemma SameWrap(k: nat, v: nat, l: nat, w: nat)
    requires v < WORD && w < WORD && k * WORD + v == l * WORD + w
    ensures v == w
  {
    assert k < l ==> (k + 1) * WORD <= l * WORD;
    assert l < k ==> (l + 1) * WORD <= k * WORD;
  }

  lemma TruncatesOnce(n: nat, v: nat, w: nat)
    requires Truncates(n, v) && Truncates(n, w)
    ensures v == w
  {
    var k: nat, l: nat :| Wrapped(k, v) == n && Wrapped(l, w) == n;
    SameWrap(k, v, l, w);
  }

  // count * size on 64-bit operands.
  method Product(count: nat, size: nat) returns (total: nat)
    ensures Truncates(count * size, total)
  {
    total := Truncate(count * size);
  }

  method Truncate(n: nat) returns (v: nat)
    ensures Truncates(n, v)
  {
    v := n % WORD;
    assert Wrapped(n / WORD, v) == n;
  }

  // memcpy(dst, src, n) on memory m.
  method CopyBytes(m: seq<byte>, dst: nat, src: nat, n: nat) returns (r: seq<byte>)
    requires dst + n <= |m| && src + n <= |m|
    requires dst + n <= src || src + n <= dst
    ensures r == Patch(m, dst, m[src..src + n])
  {
    r := m;
    var d, s, left := dst, src, n;
    while left > 0
      invariant 0 <= left <= n && d == dst + (n - left) && s == src + (n - left)
      invariant r == Patch(m, dst, m[src..s])
      decreases left
    {
      r := r[d := r[s]];
      d, s, left := d + 1, s + 1, left - 1;
      assert r == Patch(m, dst, m[src..s]) by {
        assert m[src..s] == m[src..s - 1] + [m[s - 1]];
      }
    }
  }

  // memset(p, c, n) on memory m.
  method FillBytes(m: seq<byte>, p: nat, c: byte, n: nat) returns (r: seq<byte>)
    requires p + n <= |m|
    ensures r == Patch(m, p, seq(n, _ => c))
  {
    r := m;
    var q, left := p, n;
    while left > 0
      invariant 0 <= left <= n && q == p + (n - left)
      invariant r == Patch(m, p, seq(q - p, _ => c))
      decreases left
    {
      r := r[q := c];
      q, left := q + 1, left - 1;
    }
  }
}
