/** The big-endian encoding of `encoding/binary` (`BigEndian.PutUint64`, `BigEndian.Uint64`). */
module BigEndian {
  import opened BoundedInt

  function Pow256(k: nat): (p: nat)
    ensures p >= 1
  {
    if k == 0 then 1 else 256 * Pow256(k - 1)
  }

  /** The low `k` bytes of `n`, most significant first. */
  function Encode(n: nat, k: nat): (r: seq<byte>)
    ensures |r| == k
  {
    if k == 0 then [] else Encode(n / 256, k - 1) + [n % 256]
  }

  /** The number whose big-endian bytes are `s`; it fits in `|s|` bytes. */
  function Decode(s: seq<byte>): (r: nat)
    ensures r < Pow256(|s|)
  {
    if s == [] then 0
    else
      var d := Decode(s[..|s| - 1]);
      assert d * 256 <= (Pow256(|s| - 1) - 1) * 256;
      d * 256 + s[|s| - 1]
  }

  lemma MulNonNegative(a: int, b: int)
    requires a >= 0 && b >= 0
    ensures a * b >= 0
  {
  }

  /** `n` has quotient `q` and remainder `r` by `d`. */
  lemma DivModUnique(n: int, d: int, q: int, r: int)
    requires d > 0 && 0 <= r < d && n == d * q + r
    ensures n / d == q && n % d == r
  {
    var q', r' := n / d, n % d;
    assert n == d * q' + r';
    if q' > q {
      MulNonNegative(d, q' - q - 1);
      assert false;
    } else if q' < q {
      MulNonNegative(d, q - q' - 1);
      assert false;
    }
  }

  /** Splitting off the last byte: `n` modulo `256 * p` from `n / 256` modulo `p` and the low byte. */
  lemma ModSplit(n: nat, p: nat)
    requires p > 0
    ensures (n / 256) / p == n / (256 * p)
    ensures ((n / 256) % p) * 256 + n % 256 == n % (256 * p)
  {
    var q, b := (n / 256) / p, (n / 256) % p;
    assert n == 256 * (n / 256) + n % 256;
    assert n / 256 == p * q + b;
    assert n == (256 * p) * q + (b * 256 + n % 256);
    assert b * 256 <= (p - 1) * 256;
    DivModUnique(n, 256 * p, q, b * 256 + n % 256);
  }

  lemma {:induction false} DecodeEncode(n: nat, k: nat)
    ensures Decode(Encode(n, k)) == n % Pow256(k)
  {
    if k > 0 {
      var e := Encode(n, k);
      assert e[..k - 1] == Encode(n / 256, k - 1);
      DecodeEncode(n / 256, k - 1);
      ModSplit(n, Pow256(k - 1));
    }
  }

  lemma {:induction false} EncodeDecode(s: seq<byte>)
    ensures Encode(Decode(s), |s|) == s
  {
    if s != [] {
      var k := |s|;
      var d := Decode(s[..k - 1]);
      DivModUnique(Decode(s), 256, d, s[k - 1]);
      EncodeDecode(s[..k - 1]);
      assert s == s[..k - 1] + [s[k - 1]];
    }
  }

  /** Byte `i` of the encoding is `n` shifted right by 8 * (k - 1 - i) bits, truncated to a byte. */
  lemma {:induction false} EncodeAt(n: nat, k: nat, i: nat)
    requires i < k
    ensures Encode(n, k)[i] == (n / Pow256(k - 1 - i)) % 256
  {
    if i < k - 1 {
      EncodeAt(n / 256, k - 1, i);
      ModSplit(n, Pow256(k - 2 - i));
    }
  }

  lemma Pow256Eight()
    ensures Pow256(8) == TWO_64
  {
  }

  /** `binary.BigEndian.PutUint64`: the eight bytes written for `v`. */
  function PutUint64(v: uint64): (r: seq<byte>)
    ensures |r| == 8
  {
    Encode(v, 8)
  }

  /** `binary.BigEndian.Uint64`: the first eight bytes of `b`, read most significant first. */
  function Uint64(b: seq<byte>): uint64
    requires |b| >= 8
  {
    Pow256Eight();
    Decode(b[..8])
  }

  lemma Uint64PutUint64(v: uint64)
    ensures Uint64(PutUint64(v)) == v
  {
    Pow256Eight();
    DecodeEncode(v, 8);
    assert PutUint64(v)[..8] == PutUint64(v);
  }

  lemma PutUint64Uint64(b: seq<byte>)
    requires |b| >= 8
    ensures PutUint64(Uint64(b)) == b[..8]
  {
    EncodeDecode(b[..8]);
  }

  /** The Go statement `v >> (56 - 8*i)` truncated to a byte gives byte `i` of `PutUint64(v)`. */
  lemma PutUint64At(v: uint64, i: nat)
    requires i < 8
    ensures PutUint64(v)[i] == (v / Pow256(7 - i)) % 256
  {
    EncodeAt(v, 8, i);
  }

  /** `binary.BigEndian.PutUint64(b[:8], v)`: overwrites the first eight bytes of `b` in place. */
  method PutUint64Into(b: array<byte>, v: uint64)
    requires b.Length >= 8
    modifies b
    ensures b[..8] == PutUint64(v)
    ensures b[8..] == old(b[8..])
  {
    var e := PutUint64(v);
    forall i | 0 <= i < 8 {
      b[i] := e[i];
    }
    assert b[..8] == e;
  }
}
