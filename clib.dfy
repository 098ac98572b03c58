/**
 * The parts of the C runtime the login code leans on: unsigned bytes, the
 * in-file layout of a native `int`, and the NUL-terminated string and raw
 * memory comparisons `strcmp` and `memcmp`.
 *
 * The layout of `int` is platform-dependent in C; this model fixes it as
 * 4 bytes, little-endian, two's complement.
 */
module CLib {
  /** An `unsigned char`. */
  type byte = b: int | 0 <= b < 256

  /** sizeof(int) on the platform the record layout assumes. */
  const IntSize: nat := 4

  /** The range of a 32-bit two's-complement `int`. */
  const IntMin: int := -0x8000_0000
  const IntMax: int := 0x7FFF_FFFF

  predicate IsInt(n: int) { IntMin <= n <= IntMax }

  /** The bytes `fwrite(&n, sizeof(int), 1, f)` puts in the file. */
  function IntBytes(n: int): (r: seq<byte>)
    requires IsInt(n)
    ensures |r| == IntSize
  {
    var u := if n < 0 then n + 0x1_0000_0000 else n;
    var q1 := u / 256;
    var q2 := q1 / 256;
    var q3 := q2 / 256;
    [u % 256, q1 % 256, q2 % 256, q3]
  }

  /** The `int` that `fread(&n, sizeof(int), 1, f)` fills in from four bytes. */
  function IntFromBytes(b: seq<byte>): (n: int)
    requires |b| == IntSize
    ensures IsInt(n)
    ensures n < 0 <==> b[3] >= 128
  {
    var u: int := b[0] as int + 256 * (b[1] as int + 256 * (b[2] as int + 256 * b[3] as int));
    if u <= IntMax then u else u - 0x1_0000_0000
  }

  lemma DivMod256(x: int, lo: int, hi: int)
    requires 0 <= lo < 256 && x == lo + 256 * hi
    ensures x % 256 == lo && x / 256 == hi
  {
  }

  /** Reading back the bytes written for an `int` gives that `int`. */
  lemma IntBytesRoundTrip(n: int)
    requires IsInt(n)
    ensures IntFromBytes(IntBytes(n)) == n
  {
    var u := if n < 0 then n + 0x1_0000_0000 else n;
    var q1 := u / 256;
    var q2 := q1 / 256;
    var q3 := q2 / 256;
    assert q2 == q2 % 256 + 256 * q3;
    assert q1 == q1 % 256 + 256 * q2;
    assert u == u % 256 + 256 * q1;
  }

  /** Every four bytes are the image of exactly one `int`: writing back the
      `int` read from them gives the same bytes. */
  lemma IntFromBytesRoundTrip(b: seq<byte>)
    requires |b| == IntSize
    ensures IntBytes(IntFromBytes(b)) == b
  {
    var h2: int := b[2] as int + 256 * b[3] as int;
    var h1: int := b[1] as int + 256 * h2;
    var u: int := b[0] as int + 256 * h1;
    DivMod256(u, b[0], h1);
    DivMod256(h1, b[1], h2);
    DivMod256(h2, b[2], b[3]);
    var n := IntFromBytes(b);
    assert (if n < 0 then n + 0x1_0000_0000 else n) == u;
  }

  /** No byte of s is NUL. */
  predicate NoNul(s: seq<byte>) { forall i :: 0 <= i < |s| ==> s[i] != 0 }

  /** The C string a buffer holds: its bytes before the first NUL, all of it
      when it holds none. `strlen` is the length of this prefix. */
  function CStr(s: seq<byte>): (r: seq<byte>)
    ensures |r| <= |s| && r == s[..|r|]
    ensures NoNul(r)
    ensures |r| < |s| ==> s[|r|] == 0
  {
    if s == [] || s[0] == 0 then [] else [s[0]] + CStr(s[1..])
  }

  /** A buffer without NUL is its own C string. */
  lemma CStrOfNoNul(s: seq<byte>)
    requires NoNul(s)
    ensures CStr(s) == s
  {
  }

  /** The first step of `CStr`: an empty buffer or one that starts with NUL
      holds the empty string, any other starts with its first byte. */
  lemma CStrCons(s: seq<byte>)
    ensures s == [] || s[0] == 0 ==> CStr(s) == []
    ensures s != [] && s[0] != 0 ==> CStr(s) == [s[0]] + CStr(s[1..]) && CStr(s)[1..] == CStr(s[1..])
  {
  }

  /** `strcmp` on two buffers whose strings are NUL-terminated (the end of a
      sequence counts as its terminator): the difference of the first pair of
      unsigned bytes that differ, 0 when both strings end together. It
      reports equality exactly when the two C strings are equal. */
  function Strcmp(a: seq<byte>, b: seq<byte>): (r: int)
    ensures r == 0 <==> CStr(a) == CStr(b)
    decreases |a|
  {
    CStrCons(a);
    CStrCons(b);
    var x := if a == [] then 0 else a[0];
    var y := if b == [] then 0 else b[0];
    if x != y then x - y
    else if x == 0 then 0
    else Strcmp(a[1..], b[1..])
  }

  /** `memcmp(a, b, n)`: the difference of the first pair of unsigned bytes
      that differ among the first n, 0 when there is none. It reports
      equality exactly when the first n bytes agree. */
  function Memcmp(a: seq<byte>, b: seq<byte>, n: nat): (r: int)
    requires n <= |a| && n <= |b|
    ensures r == 0 <==> a[..n] == b[..n]
  {
    if n == 0 then 0
    else if a[0] != b[0] then
      assert a[..n][0] != b[..n][0];
      a[0] - b[0]
    else
      assert a[..n] == [a[0]] + a[1..][..n - 1];
      assert b[..n] == [b[0]] + b[1..][..n - 1];
      Memcmp(a[1..], b[1..], n - 1)
  }
}
