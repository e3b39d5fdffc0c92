/** The IPv4 private-address test of the analyser (analyze.py:15-31, 53-63):
    `addr2int` folds the dotted parts into one integer, `match_prefix`
    compares the address under a top-bits mask with a prefix, and
    `Candidate.is_public` rejects the three private blocks of section 3 of
    RFC 1918 (10.0.0.0/8, 172.16.0.0/12, 192.168.0.0/16).

    Python integers are unbounded and `&` works on their two's-complement
    form, so the model computes on `int` and defines `&` exactly (`BitAnd`).
    No part is range-checked: "300.1.2.3" and "-1.0.0.0" fold to integers
    like any other dotted string. */
module Address {
  import opened Errors
  import Text

  function Pow2(n: nat): (r: nat)
    ensures r >= 1
  {
    if n == 0 then 1 else 2 * Pow2(n - 1)
  }

  lemma {:induction false} Pow2Add(a: nat, b: nat)
    ensures Pow2(a + b) == Pow2(a) * Pow2(b)
    decreases a
  {
    if a > 0 {
      Pow2Add(a - 1, b);
    }
  }

  // ---------------------------------------------------------------------------
  // addr2int

  /** `reduce(lambda x, y: (x << 8) + int(y), parts, acc)`; `x << 8` is
      `x * 256` on Python integers, negative ones included. `None` when some
      part is not an integer (Python raises `ValueError`). */
  function FoldParts(acc: int, parts: seq<string>): Option<int>
    decreases |parts|
  {
    if parts == [] then Some(acc)
    else
      match Text.ParseInt(parts[0])
      case None => None
      case Some(v) => FoldParts(acc * 256 + v, parts[1..])
  }

  /** The fold fails exactly when one of the parts is not an integer,
      whatever the accumulator. */
  lemma {:induction false} FoldPartsFails(acc: int, parts: seq<string>)
    ensures FoldParts(acc, parts).None? <==> exists i :: 0 <= i < |parts| && Text.ParseInt(parts[i]).None?
    decreases |parts|
  {
    if parts != [] {
      match Text.ParseInt(parts[0])
      case None =>
      case Some(v) =>
        FoldPartsFails(acc * 256 + v, parts[1..]);
        assert forall i :: 1 <= i < |parts| ==> parts[i] == parts[1..][i - 1];
        if FoldParts(acc, parts).None? {
          var i :| 0 <= i < |parts[1..]| && Text.ParseInt(parts[1..][i]).None?;
          assert parts[i + 1] == parts[1..][i];
        }
    }
  }

  /** `addr2int(addr)`: the parts of `addr` between dots, folded; it fails,
      as a malformed address, exactly when some part is not an integer. */
  function AddrToInt(addr: string): (r: Result<int>)
    ensures r.Err? <==> exists i :: 0 <= i < |Text.Split(addr, ".")| && Text.ParseInt(Text.Split(addr, ".")[i]).None?
    ensures r.Err? ==> r.fault == MalformedAddress(addr)
  {
    FoldPartsFails(0, Text.Split(addr, "."));
    match FoldParts(0, Text.Split(addr, "."))
    case None => Err(MalformedAddress(addr))
    case Some(x) => Ok(x)
  }

  /** The dotted-quad text "a.b.c.d" of four integers. */
  function DottedQuad(a: int, b: int, c: int, d: int): string
  {
    Text.Join([Text.Show(a), Text.Show(b), Text.Show(c), Text.Show(d)], ".")
  }

  /** `addr2int("a.b.c.d") == a*2^24 + b*2^16 + c*2^8 + d`, with no range check
      on the parts. */
  lemma AddrToIntOfQuad(a: int, b: int, c: int, d: int)
    ensures AddrToInt(DottedQuad(a, b, c, d)) == Ok(a * 0x100_0000 + b * 0x1_0000 + c * 0x100 + d)
  {
    var parts := [Text.Show(a), Text.Show(b), Text.Show(c), Text.Show(d)];
    Text.SplitOfJoin(parts, '.');
    assert Text.Split(DottedQuad(a, b, c, d), ".") == parts;
    Text.ParseIntOfShow(a);
    Text.ParseIntOfShow(b);
    Text.ParseIntOfShow(c);
    Text.ParseIntOfShow(d);
    assert parts[1..][1..][1..][1..] == [];
    assert FoldParts(0, parts) == FoldParts(a, parts[1..]);
    assert FoldParts(a, parts[1..]) == FoldParts(a * 256 + b, parts[1..][1..]);
    assert FoldParts(a * 256 + b, parts[1..][1..]) == FoldParts((a * 256 + b) * 256 + c, parts[1..][1..][1..]);
  }

  // ---------------------------------------------------------------------------
  // Python's & on a non-negative right operand

  /** `x & y` for `y >= 0` and any `x`: Euclidean `/ 2` and `% 2` are the
      arithmetic shift and the low bit of the two's-complement form. */
  function BitAnd(x: int, y: nat): (r: nat)
    ensures r <= y
    decreases y
  {
    if y == 0 then 0
    else 2 * BitAnd(x / 2, y / 2) + (if x % 2 == 1 && y % 2 == 1 then 1 else 0)
  }

  /** Bit `j` (from the least significant) of the two's-complement form of `x`. */
  predicate Bit(x: int, j: nat)
    decreases j
  {
    if j == 0 then x % 2 == 1 else Bit(x / 2, j - 1)
  }

  lemma MulAtLeast(m: int, k: int)
    requires m > 0 && k > 0
    ensures m * k >= m
  {
  }

  lemma MulSmall(m: int, d: int)
    requires m > 0 && -m < m * d < m
    ensures d == 0
  {
    if d > 0 {
      MulAtLeast(m, d);
    } else if d < 0 {
      MulAtLeast(m, -d);
    }
  }

  /** Euclidean division is determined by `x == m * q + r` with `0 <= r < m`. */
  lemma DivModUnique(x: int, m: int, q: int, r: int)
    requires m > 0 && 0 <= r < m && x == m * q + r
    ensures x / m == q && x % m == r
  {
    var q', r' := x / m, x % m;
    assert m * (q' - q) == r - r';
    MulSmall(m, q' - q);
  }

  lemma ModPow2Step(x: int, n: nat)
    ensures x % Pow2(n + 1) == 2 * ((x / 2) % Pow2(n)) + x % 2
  {
    var p := Pow2(n);
    var q, b := x / 2, x % 2;
    var s, t := q / p, q % p;
    assert q == p * s + t;
    assert x == 2 * q + b;
    assert x == (2 * p) * s + (2 * t + b);
    DivModUnique(x, 2 * p, s, 2 * t + b);
  }

  lemma Halves(d: int)
    ensures (2 * d) / 2 == d && (2 * d) % 2 == 0
    ensures (2 * d + 1) / 2 == d && (2 * d + 1) % 2 == 1
  {
    DivModUnique(2 * d, 2, d, 0);
    DivModUnique(2 * d + 1, 2, d, 1);
  }

  lemma BitAndEven(x: int, d: nat)
    ensures BitAnd(x, 2 * d) == 2 * BitAnd(x / 2, d)
  {
    Halves(d);
  }

  lemma BitAndOdd(x: int, d: nat)
    ensures BitAnd(x, 2 * d + 1) == 2 * BitAnd(x / 2, d) + x % 2
  {
    Halves(d);
  }

  /** The low `n` bits of the two's-complement form of `x`, as a number. */
  function Low(x: int, n: nat): nat
    decreases n
  {
    if n == 0 then 0 else 2 * Low(x / 2, n - 1) + x % 2
  }

  /** The low `n` bits are the residue modulo `2^n`. */
  lemma {:induction false} LowIsMod(x: int, n: nat)
    ensures Low(x, n) == x % Pow2(n)
    decreases n
  {
    if n == 0 {
      assert x % 1 == 0;
    } else {
      LowIsMod(x / 2, n - 1);
      ModPow2Step(x, n - 1);
    }
  }

  /** The number whose bits `k .. n-1` are set and no others. */
  function TopOnes(n: nat, k: nat): nat
    decreases n
  {
    if n == 0 then 0
    else if k == 0 then 2 * TopOnes(n - 1, 0) + 1
    else 2 * TopOnes(n - 1, k - 1)
  }

  /** In closed form, `TopOnes(n, k)` is `2^n - 2^k`. */
  lemma {:induction false} TopOnesValue(n: nat, k: nat)
    requires k <= n
    ensures TopOnes(n, k) == Pow2(n) - Pow2(k)
    decreases n
  {
    if n > 0 {
      TopOnesValue(n - 1, if k == 0 then 0 else k - 1);
    }
  }

  /** `x & TopOnes(n, k)` keeps bits `k .. n-1` of `x`. */
  lemma {:induction false} BitAndTopOnes(x: int, n: nat, k: nat)
    requires k <= n
    ensures BitAnd(x, TopOnes(n, k)) == Low(x, n) - Low(x, k)
    decreases n
  {
    if n > 0 {
      var h, b := x / 2, x % 2;
      assert Low(x, n) == 2 * Low(h, n - 1) + b;
      if k == 0 {
        var t := TopOnes(n - 1, 0);
        assert BitAnd(x, 2 * t + 1) == 2 * BitAnd(h, t) + b by {
          BitAndOdd(x, t);
        }
        assert BitAnd(h, t) == Low(h, n - 1) - Low(h, 0) by {
          BitAndTopOnes(h, n - 1, 0);
        }
      } else {
        var t := TopOnes(n - 1, k - 1);
        assert BitAnd(x, 2 * t) == 2 * BitAnd(h, t) by {
          BitAndEven(x, t);
        }
        assert BitAnd(h, t) == Low(h, n - 1) - Low(h, k - 1) by {
          BitAndTopOnes(h, n - 1, k - 1);
        }
        assert Low(x, k) == 2 * Low(h, k - 1) + b;
      }
    }
  }

  lemma {:induction false} BitOfZero(j: nat)
    ensures !Bit(0, j)
    decreases j
  {
    if j > 0 {
      BitOfZero(j - 1);
    }
  }

  /** `TopOnes(n, k)` has exactly bits `k .. n-1` set. */
  lemma {:induction false} BitOfTopOnes(n: nat, k: nat, j: nat)
    requires k <= n
    ensures Bit(TopOnes(n, k), j) <==> k <= j < n
    decreases n
  {
    if n == 0 {
      BitOfZero(j);
    } else {
      var k' := if k == 0 then 0 else k - 1;
      Halves(TopOnes(n - 1, k'));
      if j > 0 {
        BitOfTopOnes(n - 1, k', j - 1);
      }
    }
  }

  // ---------------------------------------------------------------------------
  // match_prefix

  /** `len` as the loop `for i in range(0, 32): ... if i < len` sees it. */
  function Clamp(len: int): (r: nat)
    ensures r <= 32
  {
    if len < 0 then 0 else if len > 32 then 32 else len
  }

  function Min(a: int, b: int): int { if a < b then a else b }

  /** The mask `match_prefix` builds: `Clamp(len)` one bits followed by
      `32 - Clamp(len)` zero bits. */
  function Mask(len: int): nat
  {
    TopOnes(32, 32 - Clamp(len))
  }

  /** Of the 32 bits of the mask exactly the top `len` are set (all 32 when
      `len >= 32`, none when `len <= 0`), and no bit above them. */
  lemma MaskHasTopBits(len: int, j: nat)
    ensures Bit(Mask(len), j) <==> 32 - Clamp(len) <= j < 32
  {
    var k := 32 - Clamp(len);
    assert Mask(len) == TopOnes(32, k);
    BitOfTopOnes(32, k, j);
  }

  /** As a number the mask is `2^32 - 2^(32 - len)`. */
  lemma MaskValue(len: int)
    ensures Mask(len) == Pow2(32) - Pow2(32 - Clamp(len))
  {
    var k := 32 - Clamp(len);
    assert Mask(len) == TopOnes(32, k);
    TopOnesValue(32, k);
  }

  /** `match_prefix(addr, pref, len)` as a value. */
  function MatchesPrefix(addr: string, pref: string, len: int): Result<bool>
  {
    var a :- AddrToInt(addr);
    var p :- AddrToInt(pref);
    Ok(BitAnd(a, Mask(len)) == p)
  }

  lemma Pow2Values()
    ensures Pow2(16) == 0x1_0000 && Pow2(20) == 0x10_0000 && Pow2(24) == 0x100_0000
    ensures Pow2(32) == 0x1_0000_0000
  {
    assert Pow2(4) == 16;
    assert Pow2(8) == 256;
    Pow2Add(8, 8);
    Pow2Add(16, 4);
    Pow2Add(16, 8);
    Pow2Add(16, 16);
  }

  /** Reducing modulo `m * k` first does not change the residue modulo `m`. */
  lemma ModOfMod(x: int, m: int, k: int)
    requires m > 0 && k > 0
    ensures m * k > 0 && (x % (m * k)) % m == x % m
  {
    MulAtLeast(m, k);
    var mk := m * k;
    var q, r := x / mk, x % mk;
    var s, t := r / m, r % m;
    assert mk * q == m * (k * q);
    assert x == m * (k * q + s) + t;
    DivModUnique(x, m, k * q + s, t);
  }

  /** `y` rounded down to a multiple of `m` equals `c * m` exactly when `y`
      lies in `[c * m, (c + 1) * m)`. */
  lemma RoundDownIs(y: int, m: int, c: int)
    requires m > 0
    ensures y - y % m == c * m <==> c * m <= y < c * m + m
  {
    var q, r := y / m, y % m;
    assert y == m * q + r;
    if y - r == c * m {
      assert m * (q - c) == 0;
      MulSmall(m, q - c);
    }
    if c * m <= y < c * m + m {
      DivModUnique(y, m, c, y - c * m);
    }
  }

  /** Masking with bits `k .. n-1` hits `lo == c * 2^k` exactly when the low
      `n` bits of `x` lie in the block `lo .. hi` of width `2^k`. */
  lemma TopBitsBlock(x: int, n: nat, k: nat, c: int, lo: int, hi: int)
    requires k <= n
    requires lo == c * Pow2(k) && hi == lo + Pow2(k) - 1
    ensures BitAnd(x, TopOnes(n, k)) == lo <==> lo <= x % Pow2(n) <= hi
  {
    BitAndTopOnes(x, n, k);
    LowIsMod(x, n);
    LowIsMod(x, k);
    var pk := Pow2(k);
    var y := x % Pow2(n);
    assert x % pk == y % pk by {
      Pow2Add(k, n - k);
      ModOfMod(x, pk, Pow2(n - k));
    }
    RoundDownIs(y, pk, c);
  }

  lemma TenBlock(x: int)
    ensures BitAnd(x, Mask(8)) == 0x0A00_0000 <==> 0x0A00_0000 <= x % 0x1_0000_0000 <= 0x0AFF_FFFF
  {
    Pow2Values();
    TopBitsBlock(x, 32, 24, 0x0A, 0x0A00_0000, 0x0AFF_FFFF);
  }

  lemma OneSevenTwoBlock(x: int)
    ensures BitAnd(x, Mask(12)) == 0xAC10_0000 <==> 0xAC10_0000 <= x % 0x1_0000_0000 <= 0xAC1F_FFFF
  {
    Pow2Values();
    TopBitsBlock(x, 32, 20, 0xAC1, 0xAC10_0000, 0xAC1F_FFFF);
  }

  lemma OneNineTwoBlock(x: int)
    ensures BitAnd(x, Mask(16)) == 0xC0A8_0000 <==> 0xC0A8_0000 <= x % 0x1_0000_0000 <= 0xC0A8_FFFF
  {
    Pow2Values();
    TopBitsBlock(x, 32, 16, 0xC0A8, 0xC0A8_0000, 0xC0A8_FFFF);
  }

  /** Under the masks of `is_public`, comparing with each prefix asks whether
      the low 32 bits of the address lie in that private block. */
  lemma MaskedPrefixIsBlock(x: int)
    ensures BitAnd(x, Mask(8)) == 0x0A00_0000 <==> 0x0A00_0000 <= x % 0x1_0000_0000 <= 0x0AFF_FFFF
    ensures BitAnd(x, Mask(12)) == 0xAC10_0000 <==> 0xAC10_0000 <= x % 0x1_0000_0000 <= 0xAC1F_FFFF
    ensures BitAnd(x, Mask(16)) == 0xC0A8_0000 <==> 0xC0A8_0000 <= x % 0x1_0000_0000 <= 0xC0A8_FFFF
  {
    TenBlock(x);
    OneSevenTwoBlock(x);
    OneNineTwoBlock(x);
  }

  /** `addr2int` of the three prefix constants of `is_public`. */
  lemma PrefixConstants()
    ensures AddrToInt("10.0.0.0") == Ok(0x0A00_0000)
    ensures AddrToInt("172.16.0.0") == Ok(0xAC10_0000)
    ensures AddrToInt("192.168.0.0") == Ok(0xC0A8_0000)
  {
    TenConstant();
    OneSevenTwoConstant();
    OneNineTwoConstant();
  }

  lemma TenConstant()
    ensures AddrToInt("10.0.0.0") == Ok(0x0A00_0000)
  {
    var parts := ["10", "0", "0", "0"];
    assert Text.Join(parts, ".") == "10.0.0.0";
    Text.SplitOfJoin(parts, '.');
    Parse10();
    Parse0();
    assert parts[1..][1..][1..][1..] == [];
  }

  lemma OneSevenTwoConstant()
    ensures AddrToInt("172.16.0.0") == Ok(0xAC10_0000)
  {
    var parts := ["172", "16", "0", "0"];
    assert Text.Join(parts, ".") == "172.16.0.0";
    Text.SplitOfJoin(parts, '.');
    Parse172();
    Parse16();
    Parse0();
    assert parts[1..][1..][1..][1..] == [];
  }

  lemma OneNineTwoConstant()
    ensures AddrToInt("192.168.0.0") == Ok(0xC0A8_0000)
  {
    var parts := ["192", "168", "0", "0"];
    assert Text.Join(parts, ".") == "192.168.0.0";
    Text.SplitOfJoin(parts, '.');
    Parse192();
    Parse168();
    Parse0();
    assert parts[1..][1..][1..][1..] == [];
  }

  lemma Parse0()
    ensures Text.ParseInt("0") == Some(0)
  {
    assert Text.Show(0) == "0" by {
    }
    Text.ParseIntOfShow(0);
  }

  lemma Parse10()
    ensures Text.ParseInt("10") == Some(10)
  {
    assert Text.Show(10) == "10" by {
        assert Text.NatDigits(1) == "1";
    }
    Text.ParseIntOfShow(10);
  }

  lemma Parse16()
    ensures Text.ParseInt("16") == Some(16)
  {
    assert Text.Show(16) == "16" by {
        assert Text.NatDigits(1) == "1";
    }
    Text.ParseIntOfShow(16);
  }

  lemma Parse168()
    ensures Text.ParseInt("168") == Some(168)
  {
    assert Text.Show(168) == "168" by {
        assert Text.NatDigits(1) == "1";
        assert Text.NatDigits(16) == "16";
    }
    Text.ParseIntOfShow(168);
  }

  lemma Parse172()
    ensures Text.ParseInt("172") == Some(172)
  {
    assert Text.Show(172) == "172" by {
        assert Text.NatDigits(1) == "1";
        assert Text.NatDigits(17) == "17";
    }
    Text.ParseIntOfShow(172);
  }

  lemma Parse192()
    ensures Text.ParseInt("192") == Some(192)
  {
    assert Text.Show(192) == "192" by {
        assert Text.NatDigits(1) == "1";
        assert Text.NatDigits(19) == "19";
    }
    Text.ParseIntOfShow(192);
  }

  /** The mask after `i` rounds of the loop of `match_prefix`. */
  function PartialMask(i: nat, len: int): nat
  {
    TopOnes(i, i - Min(i, Clamp(len)))
  }

  /** One round of the loop: shift left, then set the new low bit while
      `i < len`. */
  lemma PartialMaskStep(i: nat, len: int)
    requires i < 32
    ensures PartialMask(i + 1, len) == 2 * PartialMask(i, len) + (if i < len then 1 else 0)
  {
  }

  lemma PartialMaskDone(len: int)
    ensures PartialMask(32, len) == Mask(len)
  {
  }

  /** `match_prefix`: builds the mask bit by bit in a 32-step loop, then
      compares the masked address with the prefix. */
  method MatchPrefix(addr: string, pref: string, len: int) returns (r: Result<bool>)
    ensures r == MatchesPrefix(addr, pref, len)
  {
    var addrInt :- AddrToInt(addr);
    var prefInt :- AddrToInt(pref);
    var mask: int := 0;
    for i := 0 to 32
      invariant mask == PartialMask(i, len)
    {
      PartialMaskStep(i, len);
      mask := mask * 2;
      if i < len {
        mask := mask + 1;
      }
    }
    PartialMaskDone(len);
    r := Ok(BitAnd(addrInt, mask) == prefInt);
  }

  // ---------------------------------------------------------------------------
  // is_public

  /** The private blocks of section 3 of RFC 1918, on a 32-bit value. */
  predicate InPrivateBlock(y: int)
  {
    || 0x0A00_0000 <= y <= 0x0AFF_FFFF  // 10.0.0.0/8
    || 0xAC10_0000 <= y <= 0xAC1F_FFFF  // 172.16.0.0/12
    || 0xC0A8_0000 <= y <= 0xC0A8_FFFF  // 192.168.0.0/16
  }

  /** What `is_public` decides: an address is public unless the low 32 bits
      of its folded value lie in a private block; an address with a
      non-integer part raises. */
  function Public(addr: string): Result<bool>
  {
    var x :- AddrToInt(addr);
    Ok(!InPrivateBlock(x % 0x1_0000_0000))
  }

  /** `Candidate.is_public`: three `match_prefix` tests, the first hit
      answers "not public". */
  method IsPublic(addr: string) returns (r: Result<bool>)
    ensures r == Public(addr)
  {
    PrefixConstants();
    var inTen :- MatchPrefix(addr, "10.0.0.0", 8);
    MaskedPrefixIsBlock(AddrToInt(addr).value);
    if inTen {
      return Ok(false);
    }
    // The address has parsed once, so the later tests cannot raise.
    var in172 := MatchPrefix(addr, "172.16.0.0", 12);
    if in172.value {
      return Ok(false);
    }
    var in192 := MatchPrefix(addr, "192.168.0.0", 16);
    if in192.value {
      return Ok(false);
    }
    return Ok(true);
  }

  /** For a well-formed dotted quad, `is_public` is false exactly for
      10.0.0.0/8, 172.16.0.0/12 and 192.168.0.0/16. */
  lemma PublicOfQuad(a: int, b: int, c: int, d: int)
    requires 0 <= a <= 255 && 0 <= b <= 255 && 0 <= c <= 255 && 0 <= d <= 255
    ensures Public(DottedQuad(a, b, c, d))
         == Ok(!(a == 10 || (a == 172 && 16 <= b <= 31) || (a == 192 && b == 168)))
  {
    var low := c * 0x100 + d;
    var x := a * 0x100_0000 + b * 0x1_0000 + low;
    AddrToIntOfQuad(a, b, c, d);
    assert 0 <= low < 0x1_0000;
    assert 0 <= x < 0x1_0000_0000;
    DivModUnique(x, 0x1_0000_0000, 0, x);
    QuadBlocks(a, b, low);
  }

  /** The private blocks in terms of the first two octets and the rest. */
  lemma QuadBlocks(a: int, b: int, low: int)
    requires 0 <= a <= 255 && 0 <= b <= 255 && 0 <= low < 0x1_0000
    ensures InPrivateBlock(a * 0x100_0000 + b * 0x1_0000 + low)
        <==> a == 10 || (a == 172 && 16 <= b <= 31) || (a == 192 && b == 168)
  {
    var rest := b * 0x1_0000 + low;
    var x := a * 0x100_0000 + rest;
    assert 0 <= rest < 0x100_0000;
    if a < 10 {
      assert x < 0x0A00_0000;
    } else if a == 10 {
      assert 0x0A00_0000 <= x <= 0x0AFF_FFFF;
    } else if a < 172 {
      assert 0x0AFF_FFFF < x < 0xAC00_0000;
    } else if a == 172 {
      assert 0xAC10_0000 <= x <= 0xAC1F_FFFF <==> 16 <= b <= 31;
    } else if a < 192 {
      assert 0xAC1F_FFFF < x < 0xC000_0000;
    } else if a == 192 {
      assert 0xC0A8_0000 <= x <= 0xC0A8_FFFF <==> b == 168;
    } else {
      assert 0xC0A8_FFFF < x;
    }
  }
}
