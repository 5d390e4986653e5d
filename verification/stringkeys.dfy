/**
 * The string-key functions `mht_strk_new` installs: the multiplicative hash
 * `mht_strk_hash` and the `strcmp`-based equality `mht_strk_equals`.
 *
 * A key is the sequence of bytes of a C string, without its terminating NUL.
 * `char` is taken to be signed (as on x86 and x86-64), so a byte of 128 or
 * more is added to the hash as a negative number; `unsigned long` is taken to
 * be 64 bits wide (LP64), so every step of the hash wraps modulo 2^64.
 */
module StringKeys {
  import opened Common

  const ULongModulus: int := 0x1_0000_0000_0000_0000

  /** The value a byte has as a (signed) `char` once promoted to `int`. */
  function SignedChar(b: Byte): (c: int)
    ensures -128 <= c < 128
    ensures c % 256 == b
  {
    if b < 128 then b else b - 256
  }

  /** No byte of `s` is the NUL terminator. */
  predicate IsCBytes(s: seq<Byte>)
  {
    forall i :: 0 <= i < |s| ==> s[i] != 0
  }

  /** `mht_strk_hash`: seed 1, then `h = h * 33 + c` for every byte, in `unsigned long` arithmetic. */
  function StrHash(s: seq<Byte>): (h: int)
    ensures 0 <= h < ULongModulus
  {
    if |s| == 0 then 1
    else (StrHash(s[..|s| - 1]) * 33 + SignedChar(s[|s| - 1])) % ULongModulus
  }

  /** The same fold over unbounded integers, without any wrap-around. */
  function Poly(s: seq<Byte>): int
  {
    if |s| == 0 then 1 else Poly(s[..|s| - 1]) * 33 + SignedChar(s[|s| - 1])
  }

  /** Wrapping after every step equals wrapping once at the end. */
  lemma {:induction false} StrHashIsPolyModulo(s: seq<Byte>)
    ensures StrHash(s) == Poly(s) % ULongModulus
  {
    if |s| > 0 {
      var init := s[..|s| - 1];
      StrHashIsPolyModulo(init);
      ModuloStep(Poly(init), SignedChar(s[|s| - 1]));
    }
  }

  lemma ModuloStep(p: int, c: int)
    ensures ((p % ULongModulus) * 33 + c) % ULongModulus == (p * 33 + c) % ULongModulus
  {
    var m := ULongModulus;
    var q := p / m;
    assert p == q * m + p % m;
    assert p * 33 + c == (p % m) * 33 + c + (q * 33) * m;
    ShiftByMultiple((p % m) * 33 + c, q * 33);
  }

  lemma ShiftByMultiple(x: int, k: int)
    ensures (x + k * ULongModulus) % ULongModulus == x % ULongModulus
  {
    var m := ULongModulus;
    var r := x % m;
    assert x == (x / m) * m + r;
    assert x + k * m == (x / m + k) * m + r;
  }

  /** The `while (*rkey)` loop of `mht_strk_hash`, reading the key up to its NUL. */
  method StrHashLoop(key: seq<Byte>) returns (h: int)
    requires IsCBytes(key)
    ensures h == StrHash(key)
    ensures 0 <= h < ULongModulus
  {
    var text := key + [0];
    h := 1;
    var i := 0;
    while text[i] != 0
      invariant 0 <= i <= |key|
      invariant h == StrHash(key[..i])
      decreases |key| - i
    {
      assert key[..i + 1][..i] == key[..i];
      h := (h * 33 + SignedChar(text[i])) % ULongModulus;
      i := i + 1;
    }
    assert i == |key|;
    assert key[..i] == key;
  }

  /** The byte at position `n`, with the NUL terminator just past the end. */
  function ByteAt(s: seq<Byte>, n: nat): Byte
  {
    if n < |s| then s[n] else 0
  }

  /**
   * `strcmp`: compares the strings as unsigned bytes up to the first
   * difference or the end of both; the sign of the result orders them.
   */
  function Strcmp(a: seq<Byte>, b: seq<Byte>): (r: int)
    ensures r == 0 ==> ByteAt(a, 0) == ByteAt(b, 0)
    ensures ByteAt(a, 0) != ByteAt(b, 0) ==> r == ByteAt(a, 0) - ByteAt(b, 0)
    decreases |a|
  {
    var ca, cb := ByteAt(a, 0), ByteAt(b, 0);
    if ca != cb then ca - cb
    else if ca == 0 then 0
    else Strcmp(a[1..], b[1..])
  }

  /** `mht_strk_equals`. */
  predicate StrEquals(a: seq<Byte>, b: seq<Byte>)
  {
    Strcmp(a, b) == 0
  }

  /** On C strings, `mht_strk_equals` is exactly equality, so keys may be compared with `==`. */
  lemma {:induction false} StrEqualsIsEquality(a: seq<Byte>, b: seq<Byte>)
    requires IsCBytes(a) && IsCBytes(b)
    ensures StrEquals(a, b) <==> a == b
    decreases |a|
  {
    if |a| > 0 && |b| > 0 && a[0] == b[0] {
      assert IsCBytes(a[1..]) by {
        forall i | 0 <= i < |a[1..]|
          ensures a[1..][i] != 0
        {
          assert a[1..][i] == a[i + 1];
        }
      }
      assert IsCBytes(b[1..]) by {
        forall i | 0 <= i < |b[1..]|
          ensures b[1..][i] != 0
        {
          assert b[1..][i] == b[i + 1];
        }
      }
      StrEqualsIsEquality(a[1..], b[1..]);
      assert a == [a[0]] + a[1..] && b == [b[0]] + b[1..];
    } else if |a| > 0 && |b| > 0 {
      assert a != b;
    } else if |a| > 0 {
      assert ByteAt(a, 0) != 0;
    } else if |b| > 0 {
      assert ByteAt(b, 0) != 0;
    }
  }

  /** `strcmp` swaps sign when its arguments are swapped. */
  lemma {:induction false} StrcmpAntisymmetric(a: seq<Byte>, b: seq<Byte>)
    ensures Strcmp(a, b) == -Strcmp(b, a)
    decreases |a|
  {
    if ByteAt(a, 0) == ByteAt(b, 0) && ByteAt(a, 0) != 0 {
      StrcmpAntisymmetric(a[1..], b[1..]);
    }
  }

  /** Whatever follows a NUL is invisible to `strcmp`. */
  lemma {:induction false} StrcmpStopsAtNul(a: seq<Byte>, tail: seq<Byte>)
    requires IsCBytes(a)
    ensures StrEquals(a, a + [0] + tail)
    decreases |a|
  {
    if |a| > 0 {
      assert (a + [0] + tail)[1..] == a[1..] + [0] + tail;
      assert IsCBytes(a[1..]) by {
        forall i | 0 <= i < |a[1..]|
          ensures a[1..][i] != 0
        {
          assert a[1..][i] == a[i + 1];
        }
      }
      StrcmpStopsAtNul(a[1..], tail);
    }
  }

  /** A few values of the hash: the seed for the empty key, and the effect of a signed byte. */
  lemma StrHashValues()
    ensures StrHash([]) == 1
    ensures StrHash([97]) == 130
    ensures StrHash([255]) == 32
  {
    assert [97][..0] == [] && [255][..0] == [];
  }
}
