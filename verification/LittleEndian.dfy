/** Little-endian fields in byte buffers: the `st32`, `st64`, `ld32` and `ld64` helpers of the sources. */
module LittleEndian {
  import opened Words

  function Pow(n: nat): (p: int)
    ensures p > 0
  {
    if n == 0 then 1 else 0x100 * Pow(n - 1)
  }

  /** The `n` low bytes of `v`, lowest first. */
  function Digits(v: nat, n: nat): (d: seq<u8>)
    ensures |d| == n
  {
    if n == 0 then [] else [v % 0x100] + Digits(v / 0x100, n - 1)
  }

  function Le(s: seq<u8>): nat {
    if s == [] then 0 else s[0] + 0x100 * Le(s[1..])
  }

  lemma {:induction false} LeBound(s: seq<u8>)
    ensures Le(s) < Pow(|s|)
  {
    if s != [] { LeBound(s[1..]); }
  }

  /** What is stored is what is read back. */
  lemma {:induction false} LeDigits(v: nat, n: nat)
    requires v < Pow(n)
    ensures Le(Digits(v, n)) == v
  {
    if n > 0 {
      LeDigits(v / 0x100, n - 1);
      assert Digits(v, n)[1..] == Digits(v / 0x100, n - 1);
    }
  }

  lemma Widths()
    ensures Pow(4) == TWO32 && Pow(8) == TWO64
  {
    assert Pow(2) == 0x1_0000;
    assert Pow(4) == 0x1_0000 * Pow(2);
    assert Pow(6) == 0x1_0000 * Pow(4);
    assert Pow(8) == 0x1_0000 * Pow(6);
  }

  function Le32(s: seq<u8>, o: nat): (v: u32)
    requires o + 4 <= |s|
  {
    Widths();
    LeBound(s[o..o + 4]);
    Le(s[o..o + 4])
  }

  function Le64(s: seq<u8>, o: nat): (v: u64)
    requires o + 8 <= |s|
  {
    Widths();
    LeBound(s[o..o + 8]);
    Le(s[o..o + 8])
  }

  /** `s` with the `n` bytes of `v` at `o`. */
  function Stored(s: seq<u8>, o: nat, v: nat, n: nat): (t: seq<u8>)
    requires o + n <= |s|
    ensures |t| == |s|
  {
    s[..o] + Digits(v, n) + s[o + n..]
  }

  method Store(buf: array<u8>, o: nat, v: nat, n: nat)
    requires o + n <= buf.Length
    modifies buf
    ensures buf[..] == Stored(old(buf[..]), o, v, n)
  {
    hide Digits;
    var i, rest := 0, v;
    ghost var low: seq<u8> := [];
    while i < n
      invariant i == |low| <= n && Digits(v, n) == low + Digits(rest, n - i)
      invariant buf[..] == old(buf[..o]) + low + old(buf[o + i..])
    {
      buf[o + i] := rest % 0x100;
      FirstDigit(rest, n - i);
      low := low + [rest % 0x100];
      rest := rest / 0x100;
      i := i + 1;
    }
  }

  lemma FirstDigit(v: nat, n: nat)
    requires n > 0
    ensures Digits(v, n) == [v % 0x100] + Digits(v / 0x100, n - 1)
  {
  }

  lemma StoredReads32(s: seq<u8>, o: nat, v: u32)
    requires o + 4 <= |s|
    ensures Le32(Stored(s, o, v, 4), o) == v
  {
    Widths();
    LeDigits(v, 4);
    assert Stored(s, o, v, 4)[o..o + 4] == Digits(v, 4);
  }

  lemma StoredReads64(s: seq<u8>, o: nat, v: u64)
    requires o + 8 <= |s|
    ensures Le64(Stored(s, o, v, 8), o) == v
  {
    Widths();
    LeDigits(v, 8);
    assert Stored(s, o, v, 8)[o..o + 8] == Digits(v, 8);
  }

  /** A store leaves disjoint ranges alone. */
  lemma StoredKeeps(s: seq<u8>, o: nat, v: nat, n: nat, a: nat, b: nat)
    requires o + n <= |s| && a <= b <= |s| && (b <= o || o + n <= a)
    ensures Stored(s, o, v, n)[a..b] == s[a..b]
  {
  }

  /** A 64-bit field is its two 32-bit halves. */
  lemma Halves(s: seq<u8>, o: nat)
    requires o + 8 <= |s|
    ensures Le64(s, o) == Le32(s, o) + TWO32 * Le32(s, o + 4)
  {
    var w := s[o..o + 8];
    Split(w, 4);
    Widths();
    assert w[..4] == s[o..o + 4] && w[4..] == s[o + 4..o + 8];
  }

  lemma {:induction false} Split(s: seq<u8>, k: nat)
    requires k <= |s|
    ensures Le(s) == Le(s[..k]) + Pow(k) * Le(s[k..])
  {
    hide Pow;
    PowStep(k);
    if k > 0 {
      var t := s[1..];
      Split(t, k - 1);
      assert s[..k][1..] == t[..k - 1] && s[k..] == t[k - 1..];
      Scaled(Pow(k - 1), Le(t[k - 1..]));
    } else {
      assert s[0..] == s;
    }
  }

  lemma PowStep(k: nat)
    ensures if k == 0 then Pow(k) == 1 else Pow(k) == 0x100 * Pow(k - 1)
  {
  }

  lemma Scaled(p: int, x: int)
    ensures 0x100 * p * x == 0x100 * (p * x)
  {
  }
}
