/** The bit reservoir of the AX206 JPEG decoder (tinyjpeg's fill/look/get/skip macros). */
module BitReservoir {
  import opened Bytes
  import opened Bits

  class BitReader {
    const data: bytes
    var pos: nat
    var reservoir: nat
    var nbits: nat

    /** The last `nbits` bits taken from the stream. */
    ghost function Held(): seq<bit>
      reads this
      requires pos <= |data| && nbits <= 8 * pos
    {
      BitsOf(data)[8 * pos - nbits..8 * pos]
    }

    /** The reservoir is a 32 bit word: it holds as many of these bits as fit. */
    ghost predicate Valid()
      reads this
    {
      pos <= |data| && nbits <= 8 * pos && reservoir == Low32(Value(Held()))
    }

    /** Between two requests no bit has been lost. */
    ghost predicate Settled()
      reads this
    {
      nbits <= 23
    }

    /** Bits consumed so far. */
    ghost function Cursor(): int
      reads this
    {
      8 * pos - nbits
    }

    ghost function Unread(): seq<bit>
      reads this
      requires Valid()
    {
      BitsOf(data)[Cursor()..]
    }

    constructor (data: bytes)
      ensures Valid() && Settled() && this.data == data && Cursor() == 0
    {
      hide *;
      this.data, pos, reservoir, nbits := data, 0, 0, 0;
      new;
      NothingHeld(this);
    }

    /** fill_nbits: false where the decoder gives up with an I/O error. */
    method Fill(wanted: nat) returns (ok: bool)
      requires Valid()
      modifies this
      ensures Valid() && Cursor() == old(Cursor())
      ensures ok <==> wanted <= |Unread()|
      ensures ok ==> nbits >= wanted
      ensures nbits == old(nbits) || nbits < wanted + 8
    {
      hide Pow2, ToBits, BitsOf, Value, Low32;
      while nbits < wanted
        invariant Valid() && Cursor() == old(Cursor())
        invariant nbits == old(nbits) || nbits < wanted + 8
        decreases wanted - nbits
      {
        if pos >= |data| {
          return false;
        }
        ghost var held := Held();
        HeldGrows(data, pos, nbits);
        ByteBehind(held, data[pos]);
        reservoir := Low32(reservoir * 256 + data[pos]);
        pos, nbits := pos + 1, nbits + 8;
      }
      ok := true;
    }

    /** look_nbits */
    method Look(wanted: nat) returns (ok: bool, code: nat)
      requires Valid() && Settled() && wanted <= 16
      modifies this
      ensures Valid() && Settled() && Cursor() == old(Cursor())
      ensures ok <==> wanted <= |Unread()|
      ensures ok ==> nbits >= wanted && code == Value(Unread()[..wanted])
    {
      hide Pow2, ToBits, BitsOf, Value, Low32;
      code := 0;
      ok := Fill(wanted);
      if ok {
        code := reservoir / Pow2(nbits - wanted);
        NothingLost(Held());
        SplitValue(Held(), wanted);
        FrontOfRest(BitsOf(data), Cursor(), 8 * pos, wanted);
      }
    }

    /** skip_nbits: the bits must be in the reservoir already. */
    method Skip(n: nat)
      requires Valid() && n <= nbits && (nbits <= 23 || nbits < n + 8)
      modifies this
      ensures Valid() && Settled() && Cursor() == old(Cursor()) + n
      ensures nbits == old(nbits) - n
    {
      hide Pow2, ToBits, BitsOf, Value, Low32;
      ghost var held := Held();
      LowBits(held, n);
      nbits := nbits - n;
      reservoir := reservoir % Pow2(nbits);
      assert Held() == held[n..];
    }

    /** get_nbits into a 16 bit variable. */
    method Get(n: nat) returns (ok: bool, v: int)
      requires Valid() && Settled() && 1 <= n <= 63
      modifies this
      ensures Valid() && (ok ==> Settled())
      ensures ok <==> n <= old(|Unread()|)
      ensures Cursor() == old(Cursor()) + if ok then n else 0
      ensures ok ==> v == Signed(old(Unread())[..n])
    {
      hide Pow2, ToBits, BitsOf, Value, Signed, Short, Low32, Unsigned;
      v := 0;
      ok := Fill(n);
      if ok {
        ghost var held := Held();
        HighBits(held, n);
        assert old(Unread())[..n] == held[..n] by {
          FrontOfRest(BitsOf(data), Cursor(), 8 * pos, n);
        }
        v := Short(reservoir / Pow2(nbits - n));
        Skip(n);
        SignedSteps(held[..n]);
        if Unsigned(v) < Pow2(n - 1) {
          v := Short(v - Pow2(n) + 1);
        }
      }
    }

    /** Each MCU starts on a byte boundary: hand back whole bytes and forget the rest. */
    method Realign()
      requires Valid() && Settled()
      modifies this
      ensures Valid() && Settled() && nbits == 0
      ensures Cursor() == (old(Cursor()) + 7) / 8 * 8
    {
      pos := pos - nbits / 8;
      nbits, reservoir := 0, 0;
    }
  }

  /** A 32 bit word keeps the low bits of a number. */
  function Low32(v: nat): nat {
    v % 0x1_0000_0000
  }

  /** Conversion to `unsigned int`. */
  function Unsigned(v: int): nat {
    v % 0x1_0000_0000
  }

  /** Conversion to a 16 bit `short`. */
  function Short(v: int): (s: int)
    ensures -0x8000 <= s < 0x8000
    ensures -0x8000 <= v < 0x8000 ==> s == v
  {
    (v + 0x8000) % 0x10000 - 0x8000
  }

  /** The EXTEND procedure, figure F.12 of ITU-T T.81. */
  function Extend(v: nat, n: nat): int
    requires n >= 1
  {
    if v < Pow2(n - 1) then v - Pow2(n) + 1 else v
  }

  /** What get_nbits makes of a field: EXTEND up to 16 bits. Of a longer one only the last 16 bits
      count, and the sign test, made on the 32 bit form of what is left, goes by the first of them. */
  function Signed(m: seq<bit>): int
    requires |m| >= 1
  {
    var low := Short(Value(m));
    if |m| <= 16 then Short(Extend(Value(m), |m|))
    else if low >= 0 || |m| > 32 then Short(low + 1)
    else low
  }

  lemma FrontOfRest(s: seq<bit>, from: nat, to: nat, n: nat)
    requires from + n <= to <= |s|
    ensures s[from..][..n] == s[from..to][..n]
  {
  }

  lemma SignedSteps(m: seq<bit>)
    requires 1 <= |m|
    ensures var low := Short(Value(m));
      Signed(m) == if Unsigned(low) < Pow2(|m| - 1) then Short(low - Pow2(|m|) + 1) else low
  {
    hide Value, Pow2;
    var n := |m|;
    ValueBound(m);
    Pow2Small();
    DoublePow2(n - 1);
    if n <= 16 {
      Pow2Monotone(n, 16);
    } else {
      Pow2Add(16, n - 16);
      Pow2Add(16, 15);
      Pow2Add(16, 16);
      if n <= 32 {
        Pow2Monotone(n - 1, 31);
        Pow2Monotone(16, n - 1);
      } else {
        Pow2Monotone(32, n - 1);
      }
      WrapAround(Short(Value(m)) + 1, Pow2(n - 16));
    }
  }

  lemma WrapAround(v: int, k: nat)
    ensures Short(v - 0x10000 * k) == Short(v)
  {
  }

  lemma {:induction false} Pow2Monotone(a: nat, b: nat)
    requires a <= b
    ensures Pow2(a) <= Pow2(b)
  {
    if a < b {
      Pow2Monotone(a, b - 1);
    }
  }

  lemma NothingHeld(r: BitReader)
    requires r.pos == r.nbits == r.reservoir == 0
    ensures r.Valid() && r.Settled() && r.Cursor() == 0
  {
    hide BitsOf;
    assert r.Held() == [];
  }

  lemma ByteBehind(a: seq<bit>, d: byte)
    ensures Low32(Low32(Value(a)) * 256 + d) == Low32(Value(a + ToBits(d, 8)))
  {
    hide Pow2, ToBits, Value, Low32;
    Pow2Small();
    ValueOfToBits(d, 8);
    ValueConcat(a, ToBits(d, 8));
    assert Value(a + ToBits(d, 8)) == Value(a) * 256 + d;
    ShiftedIn(Value(a), d);
  }

  lemma HeldGrows(data: bytes, pos: nat, nbits: nat)
    requires pos < |data| && nbits <= 8 * pos
    ensures BitsOf(data)[8 * pos - nbits..8 * pos + 8] == BitsOf(data)[8 * pos - nbits..8 * pos] + ToBits(data[pos], 8)
  {
    hide BitsOf, ToBits;
    ByteBits(data, pos);
    JoinSlices(BitsOf(data), 8 * pos - nbits, 8 * pos, 8 * pos + 8);
  }

  lemma JoinSlices(s: seq<bit>, lo: nat, mid: nat, hi: nat)
    requires lo <= mid <= hi <= |s|
    ensures s[lo..hi] == s[lo..mid] + s[mid..hi]
  {
  }

  lemma ShiftedIn(v: nat, d: byte)
    ensures Low32(Low32(v) * 256 + d) == Low32(v * 256 + d)
  {
    var q, r := v / 0x1_0000_0000, v % 0x1_0000_0000;
    assert v * 256 + d == 0x1_0000_0000 * (256 * q) + (r * 256 + d);
  }

  /** Splitting a bit string. */
  lemma SplitValue(s: seq<bit>, n: nat)
    requires n <= |s|
    ensures Value(s[..n]) == Value(s) / Pow2(|s| - n) && Value(s[n..]) == Value(s) % Pow2(|s| - n)
  {
    hide Pow2, Value;
    assert s == s[..n] + s[n..];
    ValueConcat(s[..n], s[n..]);
    ValueBound(s[n..]);
    Divide(Value(s[..n]), Pow2(|s| - n), Value(s[n..]));
  }

  lemma NothingLost(s: seq<bit>)
    requires |s| <= 23
    ensures Low32(Value(s)) == Value(s)
  {
    hide Pow2, Value;
    ValueBound(s);
    Pow2Monotone(|s|, 23);
    Pow2Small();
    Pow2Add(16, 7);
  }

  /** The low bits of the reservoir are right whether or not high ones were lost. */
  lemma LowBits(s: seq<bit>, n: nat)
    requires n <= |s| && (|s| <= 23 || |s| < n + 8)
    ensures Low32(Value(s)) % Pow2(|s| - n) == Value(s[n..]) == Low32(Value(s[n..]))
  {
    hide Pow2, Value, Low32;
    SplitValue(s, n);
    NothingLost(s[n..]);
    if |s| <= 23 {
      NothingLost(s);
    } else {
      SmallPowers(Value(s), |s| - n);
    }
  }

  lemma HighBits(s: seq<bit>, n: nat)
    requires n <= |s| && (|s| <= 23 || |s| < n + 8)
    ensures Short(Low32(Value(s)) / Pow2(|s| - n)) == Short(Value(s[..n]))
  {
    hide Pow2, Value, Short, Low32;
    SplitValue(s, n);
    if |s| <= 23 {
      NothingLost(s);
    } else {
      SmallPowers(Value(s), |s| - n);
    }
  }

  /** Multiples of 2^32 change neither the low bits nor the 16 bits above them. */
  lemma SmallPowers(v: nat, k: nat)
    requires k < 8
    ensures Low32(v) % Pow2(k) == v % Pow2(k)
    ensures Short(Low32(v) / Pow2(k)) == Short(v / Pow2(k))
  {
    hide Short, Pow2;
    Pow2Add(k, 7 - k);
    Pow2Small();
    WordsAbove(v / 0x1_0000_0000, v % 0x1_0000_0000, Pow2(k), Pow2(7 - k));
  }

  lemma WordsAbove(q: nat, r: nat, p: nat, m: nat)
    requires p > 0 && p * m == 128
    ensures (0x1_0000_0000 * q + r) % p == r % p
    ensures Short((0x1_0000_0000 * q + r) / p) == Short(r / p)
  {
    hide Short;
    var k := 0x200 * (m * q);
    Regroup(p, m, q);
    QuotientShift(0x10000 * k, p, r);
    WrapAround(0x10000 * k + r / p, k);
  }

  lemma Regroup(p: nat, m: nat, q: nat)
    requires p * m == 128
    ensures 0x1_0000_0000 * q == (0x10000 * (0x200 * (m * q))) * p
  {
    assert p * (m * q) == (p * m) * q;
    assert (0x200_0000 * (m * q)) * p == 0x200_0000 * (p * (m * q));
  }

  lemma QuotientShift(t: nat, p: nat, r: nat)
    requires p > 0
    ensures (t * p + r) / p == t + r / p && (t * p + r) % p == r % p
  {
    var e, f := r / p, r % p;
    assert t * p + r == (t + e) * p + f;
    Divide(t + e, p, f);
  }
}
