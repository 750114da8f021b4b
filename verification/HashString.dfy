/** hash_string of hash-string.h (the hash function of P. J. Weinberger), for both
    widths of `unsigned long int`. */
module HashString {

  /** The mixing of the top four of 32 bits into the lower ones. */
  function Mix(v: bv64): bv64 {
    var g := v & 0xf000_0000;
    if g != 0 then (v ^ (g >> 24)) ^ g else v
  }

  /** One round with a 64-bit `unsigned long int`. */
  function Round64(h: bv64, c: bv64): bv64 {
    Mix((h << 4) + c)
  }

  /** One round with a 32-bit `unsigned long int`: shift and sum lose what exceeds 32 bits. */
  function Round32(h: bv64, c: bv64): bv64 {
    Mix(((h << 4) + c) & 0xffff_ffff)
  }

  function Low32(h: bv64): bv64 {
    h & 0xffff_ffff
  }

  /** Feeds the characters of a C string to a hash function, one round each. */
  function Hash<H>(round: (H, bv64) -> H, s: seq<bv64>, h: H): H {
    if s == [] || s[0] == 0 then h else Hash(round, s[1..], round(h, s[0]))
  }

  lemma MixIsPlain(v: bv64)
    ensures var g := v & 0xf000_0000; Mix(v) == (v ^ (g >> 24)) ^ g
  {
  }

  lemma MixAgrees(v: bv64)
    ensures Low32(Mix(v)) == Mix(Low32(v))
  {
    MixIsPlain(v);
    MixIsPlain(v & 0xffff_ffff);
    PlainAgrees(v);
  }

  lemma PlainAgrees(v: bv64)
    ensures var g := v & 0xf000_0000; var v' := v & 0xffff_ffff; var g' := v' & 0xf000_0000;
            ((v ^ (g >> 24)) ^ g) & 0xffff_ffff == (v' ^ (g' >> 24)) ^ g'
  {
  }

  lemma MixIsSmall(v: bv64)
    ensures Low32(Mix(v)) < 0x1000_0000
  {
  }

  lemma ShiftAgrees(h: bv64, c: bv64)
    ensures ((h << 4) + c) & 0xffff_ffff == (((h & 0xffff_ffff) << 4) + c) & 0xffff_ffff
  {
  }

  lemma MixOfEqual(v: bv64, w: bv64)
    requires v & 0xffff_ffff == w
    ensures Mix(v) & 0xffff_ffff == Mix(w) < 0x1000_0000
  {
    MixAgrees(v);
    MixIsSmall(v);
  }

  lemma RoundsAgree(h: bv64, c: bv64)
    ensures Round64(h, c) & 0xffff_ffff == Round32(h & 0xffff_ffff, c) < 0x1000_0000
  {
    ShiftAgrees(h, c);
    MixOfEqual((h << 4) + c, (((h & 0xffff_ffff) << 4) + c) & 0xffff_ffff);
  }

  /** Two hash functions whose rounds agree under a view give the same result under it. */
  lemma {:induction false} Simulation<H(!new)>(
      f: (H, bv64) -> H, g: (H, bv64) -> H, view: H -> H, small: H -> bool, s: seq<bv64>, h: H)
    requires forall x: H, c: bv64 {:trigger f(x, c)} :: view(f(x, c)) == g(view(x), c) && small(g(view(x), c))
    requires small(view(h))
    ensures view(Hash(f, s, h)) == Hash(g, s, view(h)) && small(Hash(g, s, view(h)))
  {
    if s != [] && s[0] != 0 {
      assert view(f(h, s[0])) == g(view(h), s[0]);
      Simulation(f, g, view, small, s[1..], f(h, s[0]));
    }
  }

  /** Truncated to the 32 bits that the callers store, the hash does not depend on the
      width of `unsigned long int`, and it is below 2^28. */
  lemma WidthIndependent(s: seq<bv64>)
    ensures Low32(Hash(Round64, s, 0)) == Hash(Round32, s, 0)
    ensures Hash(Round32, s, 0) < 0x1000_0000
  {
    var small := (x: bv64) => x < 0x1000_0000;
    forall x: bv64, c: bv64 {:trigger Round64(x, c)}
      ensures Low32(Round64(x, c)) == Round32(Low32(x), c) && small(Round32(Low32(x), c))
    {
      RoundsAgree(x, c);
    }
    Simulation(Round64, Round32, Low32, small, s, 0);
  }

  /** hash_string where `unsigned long int` has 64 bits. */
  method HashString64(str: seq<bv64>) returns (hval: bv64)
    ensures hval == Hash(Round64, str, 0)
  {
    hval := 0;
    var i := 0;
    while i < |str| && str[i] != 0
      invariant 0 <= i <= |str| && Hash(Round64, str[i..], hval) == Hash(Round64, str, 0)
    {
      assert str[i..][1..] == str[i + 1..];
      hval := Round64(hval, str[i]);
      i := i + 1;
    }
  }

  /** Without the truncation the width does matter: this string's 64-bit hash exceeds 32 bits. */
  lemma UntruncatedDiffers()
    ensures Hash(Round64, [255, 255, 255, 255, 255, 255, 15, 16], 0) == 0x1_0000_0000
  {
    hide Round64;
    FirstRounds();
    LastRounds();
  }

  lemma FirstRounds()
    ensures Round64(0, 255) == 255 && Round64(255, 255) == 0x10ef && Round64(0x10ef, 255) == 0x1_0fef
    ensures Round64(0x1_0fef, 255) == 0x10_ffef
  {
  }

  lemma LastRounds()
    ensures Round64(0x10_ffef, 255) == 0x10f_ffef && Round64(0x10f_ffef, 255) == 0xff_ffff
    ensures Round64(0xff_ffff, 15) == 0xfff_ffff && Round64(0xfff_ffff, 16) == 0x1_0000_0000
  {
  }

  // ---- When the width matters ----

  /** The length of the C string. */
  function StrLen(s: seq<bv64>): nat {
    if s == [] || s[0] == 0 then 0 else 1 + StrLen(s[1..])
  }

  /** A round's shift and sum exceed 32 bits. */
  predicate Carries(low: bv64, c: bv64) {
    (low << 4) + c > 0xffff_ffff
  }

  /** None of the last eight rounds exceeds 32 bits. */
  predicate NoLateCarry(s: seq<bv64>, low: bv64) {
    if s == [] || s[0] == 0 then true
    else (StrLen(s) <= 8 ==> !Carries(low, s[0])) && NoLateCarry(s[1..], Round32(low, s[0]))
  }

  predicate Bytes(s: seq<bv64>) {
    forall i :: 0 <= i < |s| ==> s[i] < 256
  }

  function High32(h: bv64): bv64 {
    h >> 32
  }

  /** One round, as the upper half sees it. */
  function Shifted(high: bv64): bv64 {
    (high << 4) & 0xffff_ffff
  }

  predicate Vanishes(high: bv64, rounds: nat)
    decreases rounds
  {
    if rounds == 0 then high == 0 else Vanishes(Shifted(high), rounds - 1)
  }

  function Join(x: bv64, y: bv64): bv64 {
    x | y
  }

  lemma OrShift(x: bv64, y: bv64)
    ensures Shifted(x | y) == Shifted(x) | Shifted(y) && (x | y == 0 <==> x == 0 && y == 0)
  {
  }

  lemma ShiftOfOr(x: bv64, y: bv64)
    ensures Shifted(Join(x, y)) == Join(Shifted(x), Shifted(y)) && (Join(x, y) == 0 <==> x == 0 && y == 0)
  {
    hide Shifted;
    OrShift(x, y);
  }

  lemma {:induction false} VanishesOr(x: bv64, y: bv64, rounds: nat)
    ensures Vanishes(Join(x, y), rounds) <==> Vanishes(x, rounds) && Vanishes(y, rounds)
    decreases rounds
  {
    ShiftOfOr(x, y);
    hide Shifted, Join;
    if rounds > 0 { VanishesOr(Shifted(x), Shifted(y), rounds - 1); }
  }

  lemma {:induction false} ZeroVanishes(rounds: nat)
    ensures Vanishes(0, rounds)
  {
    assert Shifted(0) == 0;
    hide Shifted;
    if rounds > 0 { ZeroVanishes(rounds - 1); }
  }

  lemma VanishStep(x: bv64, y: bv64, rounds: nat)
    requires Shifted(x) == y && x != 0
    ensures Vanishes(x, rounds) <==> rounds > 0 && Vanishes(y, rounds - 1)
  {
    hide Shifted;
  }

  /** A single bit takes eight rounds to get out of 32 bits. */
  lemma OneVanishes(rounds: nat)
    ensures Vanishes(1, rounds) <==> rounds >= 8
  {
    VanishStep(1, 0x10, rounds);
    if rounds >= 1 { VanishStep(0x10, 0x100, rounds - 1); }
    if rounds >= 2 { VanishStep(0x100, 0x1000, rounds - 2); }
    if rounds >= 3 { VanishStep(0x1000, 0x1_0000, rounds - 3); }
    if rounds >= 4 { VanishStep(0x1_0000, 0x10_0000, rounds - 4); }
    if rounds >= 5 { VanishStep(0x10_0000, 0x100_0000, rounds - 5); }
    if rounds >= 6 { VanishStep(0x100_0000, 0x1000_0000, rounds - 6); }
    if rounds >= 7 { VanishStep(0x1000_0000, 0, rounds - 7); }
    hide Vanishes;
    if rounds >= 8 { ZeroVanishes(rounds - 8); }
  }

  lemma HighOfSum(h: bv64, c: bv64)
    requires h & 0xffff_ffff < 0x1000_0000 && c < 256
    ensures ((h << 4) + c) >> 32
            == (((h >> 32) << 4) & 0xffff_ffff) | (if ((h & 0xffff_ffff) << 4) + c > 0xffff_ffff then 1 else 0)
  {
  }

  lemma HighOfMix(v: bv64)
    ensures Mix(v) >> 32 == v >> 32
  {
  }

  function Carry(low: bv64, c: bv64): bv64 {
    if Carries(low, c) then 1 else 0
  }

  predicate HighIsZero(h: bv64) {
    High32(h) == 0
  }

  predicate Small(h: bv64) {
    Low32(h) < 0x1000_0000
  }

  lemma HighRoundPlain(h: bv64, c: bv64)
    requires Low32(h) < 0x1000_0000 && c < 256
    ensures High32(Round64(h, c)) == Shifted(High32(h)) | (if Carries(Low32(h), c) then 1 else 0)
  {
    hide Mix;
    HighOfSum(h, c);
    HighOfMix((h << 4) + c);
  }

  lemma HighRoundCarry(h: bv64, c: bv64, carry: bv64)
    requires Small(h) && c < 256 && carry == Carry(Low32(h), c)
    ensures High32(Round64(h, c)) == Shifted(High32(h)) | carry
  {
    HighRoundPlain(h, c);
    hide Round64, High32, Low32, Shifted, Carries;
  }

  lemma JoinIs(x: bv64, y: bv64)
    ensures Join(x, y) == x | y
  {
  }

  /** The upper half after a round: it is shifted, and a carry comes in. */
  lemma HighRound(h: bv64, c: bv64)
    requires Small(h) && c < 256
    ensures High32(Round64(h, c)) == Join(Shifted(High32(h)), Carry(Low32(h), c))
  {
    hide *;
    HighRoundCarry(h, c, Carry(Low32(h), c));
    JoinIs(Shifted(High32(h)), Carry(Low32(h), c));
  }

  lemma LowRound(h: bv64, c: bv64)
    ensures Low32(Round64(h, c)) == Round32(Low32(h), c) && Small(Round64(h, c))
  {
    hide Round64, Round32;
    RoundsAgree(h, c);
  }

  lemma CarryVanishes(low: bv64, c: bv64, rounds: nat)
    ensures Vanishes(Carry(low, c), rounds) <==> !Carries(low, c) || rounds >= 8
  {
    OneVanishes(rounds);
    ZeroVanishes(rounds);
    hide Carries, Vanishes;
  }

  lemma VanishesNext(x: bv64, rounds: nat)
    ensures Vanishes(x, rounds + 1) == Vanishes(Shifted(x), rounds)
  {
    hide Shifted;
  }

  /** The upper half is gone after some more rounds, for one round and the rest. */
  lemma VanishRound(h: bv64, c: bv64, rounds: nat)
    requires Small(h) && c < 256
    ensures Vanishes(High32(Round64(h, c)), rounds)
            <==> Vanishes(High32(h), rounds + 1) && (!Carries(Low32(h), c) || rounds >= 8)
  {
    hide *;
    HighRound(h, c);
    VanishesNext(High32(h), rounds);
    VanishesOr(Shifted(High32(h)), Carry(Low32(h), c), rounds);
    CarryVanishes(Low32(h), c, rounds);
  }

  lemma FirstByte(s: seq<bv64>)
    requires Bytes(s) && s != []
    ensures s[0] < 256 && Bytes(s[1..])
  {
  }

  lemma NothingVanishes(h: bv64)
    ensures HighIsZero(h) <==> Vanishes(High32(h), 0)
  {
  }

  lemma {:induction false} HighVanishes(s: seq<bv64>, h: bv64)
    requires Small(h) && Bytes(s)
    ensures HighIsZero(Hash(Round64, s, h)) <==> NoLateCarry(s, Low32(h)) && Vanishes(High32(h), StrLen(s))
  {
    hide Round64, Round32, Low32, High32, Carries, Bytes, Small, HighIsZero, Vanishes;
    if s == [] || s[0] == 0 {
      NothingVanishes(h);
    } else {
      FirstByte(s);
      LowRound(h, s[0]);
      HighVanishes(s[1..], Round64(h, s[0]));
      VanishRound(h, s[0], StrLen(s[1..]));
    }
  }

  lemma Halves(h: bv64)
    ensures High32(h) == 0 <==> h == Low32(h)
    ensures Low32(0) == 0 == High32(0)
  {
  }

  /** Without the cut, the two widths give the same hash exactly if none of the last eight rounds exceeds 32 bits. */
  lemma UncutAgrees(s: seq<bv64>)
    requires Bytes(s)
    ensures Hash(Round64, s, 0) == Hash(Round32, s, 0) <==> NoLateCarry(s, 0)
  {
    var h := Hash(Round64, s, 0);
    Halves(0);
    Halves(h);
    HighVanishes(s, 0);
    ZeroVanishes(StrLen(s));
    WidthIndependent(s);
  }

  // ---- As the catalogues use it ----

  /** A character as a byte. */
  function Byte(c: char): bv64 {
    (c as int % 256) as bv64
  }

  /** The characters of a string as bytes. */
  function AsBytes(s: string): seq<bv64> {
    seq(|s|, i requires 0 <= i < |s| => Byte(s[i]))
  }

  /** The hash value of a C string: 32 bits of it are stored and compared. */
  function HashOf(s: string): nat {
    Hash(Round32, AsBytes(s), 0) as nat
  }

  /** The call of hash_string with 64-bit words, and the assignment to an nls_uint32. */
  method HashValue(s: string) returns (hash: nat)
    ensures hash == HashOf(s)
  {
    hide AsBytes, Round32, Round64, Low32, Hash;
    var hval := HashString64(AsBytes(s));
    WidthIndependent(AsBytes(s));
    hash := Low32(hval) as nat;
  }

  lemma SomeRounds()
    ensures Round32(0, 116) == 0x74 && Round32(0x74, 101) == 0x7a5 && Round32(0x7a5, 109) == 0x7abd
    ensures Round32(0x7abd, 112) == 0x7_ac40 && Round32(0x7_ac40, 101) == 0x7a_c465
    ensures Round32(0x7a_c465, 114) == 0x7ac_46c2 && Round32(0x7ac_46c2, 97) == 0xac4_6cf1
  {
  }

  lemma MoreRounds()
    ensures Round32(0xac4_6cf1, 116) == 0xc46_cf24 && Round32(0xc46_cf24, 117) == 0x46c_f275
    ensures Round32(0x46c_f275, 114) == 0x6cf_2782 && Round32(0x6cf_2782, 101) == 0xcf2_78e5
  {
  }

  /** The byte of a character. */
  lemma ByteOf(c: char, b: bv64)
    requires b < 256 && c as int == b as int
    ensures Byte(c) == b
  {
    assert c as int % 256 == b as int;
  }

  lemma BytesStep(c: char, b: bv64, rest: string)
    requires b < 256 && c as int == b as int
    ensures AsBytes([c] + rest) == [b] + AsBytes(rest)
  {
    ByteOf(c, b);
    hide Byte;
    var s, t := AsBytes([c] + rest), [b] + AsBytes(rest);
    forall i | 0 <= i < |s| ensures s[i] == t[i] {
      if i > 0 { assert ([c] + rest)[i] == rest[i - 1]; }
    }
  }

  lemma HashStep(c: char, b: bv64, rest: string, h: bv64)
    requires 0 < b < 256 && c as int == b as int
    ensures Hash(Round32, AsBytes([c] + rest), h) == Hash(Round32, AsBytes(rest), Round32(h, b))
  {
    BytesStep(c, b, rest);
    hide Round32, AsBytes;
    assert ([b] + AsBytes(rest))[1..] == AsBytes(rest);
  }

  /** The hash value of one word. */
  lemma HashOfWord()
    ensures HashOf("temperature") == 0xcf2_78e5
  {
    SomeRounds();
    MoreRounds();
    NothingHashed(0xcf2_78e5);
    hide Round32, Hash, AsBytes;
    assert "temperature" == ['t'] + "emperature";
    HashStep('t', 116, "emperature", 0);
    assert "emperature" == ['e'] + "mperature";
    HashStep('e', 101, "mperature", 0x74);
    assert "mperature" == ['m'] + "perature";
    HashStep('m', 109, "perature", 0x7a5);
    assert "perature" == ['p'] + "erature";
    HashStep('p', 112, "erature", 0x7abd);
    assert "erature" == ['e'] + "rature";
    HashStep('e', 101, "rature", 0x7_ac40);
    assert "rature" == ['r'] + "ature";
    HashStep('r', 114, "ature", 0x7a_c465);
    assert "ature" == ['a'] + "ture";
    HashStep('a', 97, "ture", 0x7ac_46c2);
    assert "ture" == ['t'] + "ure";
    HashStep('t', 116, "ure", 0xac4_6cf1);
    assert "ure" == ['u'] + "re";
    HashStep('u', 117, "re", 0xc46_cf24);
    assert "re" == ['r'] + "e";
    HashStep('r', 114, "e", 0x46c_f275);
    assert "e" == ['e'] + "";
    HashStep('e', 101, "", 0x6cf_2782);
  }

  lemma NothingHashed(h: bv64)
    ensures Hash(Round32, AsBytes(""), h) == h
  {
  }
}
