/**
 * `stringToColor`: a rolling string hash folded into a CSS colour "#rrggbb"
 * whose first two hex digits are the hash's LOWEST byte.
 *
 * In JavaScript `hash` is a Number: only `hash << 5` goes through ToInt32, so
 * `hash` itself is not kept in 32 bits. The method below follows that exactly
 * on unbounded integers and proves that, modulo 2^32, it agrees with the
 * 32-bit rolling hash `h := 31 * h + code (mod 2^32)`.
 */
module ColorHash {
  import opened JsText

  const Two32: int := 0x1_0000_0000
  const Two31: int := 0x8000_0000

  /** ECMAScript ToInt32 on an integral Number. */
  function ToInt32(x: int): (r: int)
    ensures -Two31 <= r < Two31
    ensures r % Two32 == x % Two32
    ensures r == x % Two32 || r == x % Two32 - Two32
  {
    var m := x % Two32;
    if m >= Two31 then m - Two32 else m
  }

  /** The 32-bit rolling hash of a string: h := 31 * h + code, wrapping at 2^32. */
  function Hash(s: string): (h: int)
    ensures 0 <= h < Two32
  {
    if s == [] then 0 else (31 * Hash(s[..|s| - 1]) + s[|s| - 1] as int) % Two32
  }

  /** `v >> (i * 8)` for i < 3: an arithmetic shift is a floor division by 2^(8i). */
  function ShiftBytes(v: int, i: nat): int
    requires i < 3
  {
    if i == 0 then v else if i == 1 then v / 0x100 else v / 0x1_0000
  }

  /** Channel i of a 32-bit hash: `(hash >> (i * 8)) & 0xff` on its unsigned value. */
  function Channel(h: int, i: nat): (v: int)
    requires 0 <= h < Two32 && i < 3
    ensures 0 <= v < 256
  {
    ShiftBytes(h, i) % 256
  }

  predicate IsLowerHexDigit(c: char) {
    '0' <= c <= '9' || 'a' <= c <= 'f'
  }

  function HexDigit(d: int): (c: char)
    requires 0 <= d < 16
    ensures IsLowerHexDigit(c)
  {
    "0123456789abcdef"[d]
  }

  /** The value of a lower-case hex digit: the inverse of HexDigit. */
  function HexDigitValue(c: char): (d: int)
    requires IsLowerHexDigit(c)
    ensures 0 <= d < 16 && HexDigit(d) == c
  {
    if c <= '9' then c as int - '0' as int else c as int - 'a' as int + 10
  }

  /** Number.prototype.toString(16) for a non-negative integer. */
  function ToHexString(v: nat): (s: string)
    ensures |s| >= 1
  {
    if v < 16 then [HexDigit(v)] else ToHexString(v / 16) + [HexDigit(v % 16)]
  }

  /** String.prototype.substr(-2) */
  function LastTwo(s: string): string
    requires |s| >= 2
  {
    s[|s| - 2..]
  }

  /** A byte as two lower-case hex digits, high digit first. */
  function HexByte(v: int): (s: string)
    requires 0 <= v < 256
  {
    [HexDigit(v / 16), HexDigit(v % 16)]
  }

  /** Channels 0 to k - 1 of a 32-bit hash, as hex bytes: the colour after k rounds of the channel loop. */
  function HexPrefix(h: int, k: nat): string
    requires 0 <= h < Two32 && k <= 3
  {
    if k == 0 then "" else HexPrefix(h, k - 1) + HexByte(Channel(h, k - 1))
  }

  /** The colour of a 32-bit hash: '#', then channels 0, 1 and 2 as hex bytes. */
  function ColorOf(h: int): string
    requires 0 <= h < Two32
  {
    "#" + HexPrefix(h, 3)
  }

  /** The colour `stringToColor` gives a string. */
  function ColorFor(s: string): string {
    ColorOf(Hash(s))
  }

  /** A CSS colour "#" followed by six lower-case hex digits. */
  predicate IsColorString(c: string) {
    |c| == 7 && c[0] == '#' && forall i :: 1 <= i < 7 ==> IsLowerHexDigit(c[i])
  }

  // ---------------------------------------------------------------------------
  // The JavaScript loops

  /** One round of `hash = str.charCodeAt(i) + ((hash << 5) - hash)` agrees with the rolling hash mod 2^32. */
  lemma JsStepAgrees(h: int, c: int)
    ensures (c + (ToInt32(ToInt32(h) * 32) - h)) % Two32 == (31 * (h % Two32) + c) % Two32
  {
    var a := ToInt32(h);
    var b := ToInt32(a * 32);
    var qh := h / Two32;
    var qa := (a - h % Two32) / Two32;
    assert a == h % Two32 + qa * Two32;
    var qb := (b - (a * 32) % Two32) / Two32;
    assert b == (a * 32) % Two32 + qb * Two32;
    assert (a * 32) % Two32 == (32 * (h % Two32)) % Two32 by {
      assert a * 32 == 32 * (h % Two32) + (32 * qa) * Two32;
    }
    assert h == h % Two32 + qh * Two32;
    var lhs := c + b - h;
    assert lhs == 31 * (h % Two32) + c + ((32 * (h % Two32)) % Two32 - 32 * (h % Two32)) + (qb - qh) * Two32;
    var r := (32 * (h % Two32)) % Two32 - 32 * (h % Two32);
    assert r % Two32 == 0;
  }

  /** Adding 2^32 to a negative value leaves `(v / d) & 0xff` unchanged for the shifts used. */
  lemma WrapKeepsByte(v: int, d: int)
    requires d == 1 || d == 0x100 || d == 0x1_0000
    ensures ((v + 0x1_0000_0000) / d) % 256 == (v / d) % 256
  {
    var k := 0x1_0000_0000 / d;
    assert k % 256 == 0 && k * d == 0x1_0000_0000 by {
      if d == 1 {
      } else if d == 0x100 {
      } else {
      }
    }
    assert (v + 0x1_0000_0000) / d == v / d + k by {
      if d == 1 {
      } else if d == 0x100 {
        assert v + 0x1_0000_0000 == v + 0x100 * 0x100_0000;
      } else {
        assert v + 0x1_0000_0000 == v + 0x1_0000 * 0x1_0000;
      }
    }
  }

  /** `(v >> (i * 8)) & 0xff` on the signed 32-bit value equals channel i of the unsigned one. */
  lemma SignedChannel(v: int, i: nat)
    requires -Two31 <= v < Two31 && i < 3
    ensures 0 <= v % Two32 < Two32
    ensures ShiftBytes(v, i) % 256 == Channel(v % Two32, i)
  {
    if v < 0 {
      assert v % Two32 == v + 0x1_0000_0000;
      if i == 0 {
        WrapKeepsByte(v, 1);
      } else if i == 1 {
        WrapKeepsByte(v, 0x100);
      } else {
        WrapKeepsByte(v, 0x1_0000);
      }
    }
  }

  /** Every channel the source extracts from its `hash` Number is the channel of the 32-bit hash. */
  lemma JsChannels(hash: int, h: int)
    requires 0 <= h < Two32 && hash % Two32 == h
    ensures forall k :: 0 <= k < 3 ==> ShiftBytes(ToInt32(hash), k) % 256 == Channel(h, k)
  {
    forall k | 0 <= k < 3
      ensures ShiftBytes(ToInt32(hash), k) % 256 == Channel(h, k)
    {
      SignedChannel(ToInt32(hash), k);
    }
  }

  /** `("00" + v.toString(16)).substr(-2)` is the byte's two hex digits. */
  lemma PaddedHex(v: int)
    requires 0 <= v < 256
    ensures LastTwo("00" + ToHexString(v)) == HexByte(v)
  {
    var q := v / 16;
    var r := v % 16;
    assert v == 16 * q + r && 0 <= r < 16;
    assert 0 <= q < 16;
    if v < 16 {
      assert q == 0 && r == v;
      assert ToHexString(v) == [HexDigit(v)];
    } else {
      assert ToHexString(v) == ToHexString(q) + [HexDigit(r)];
      assert ToHexString(q) == [HexDigit(q)];
    }
  }

  /** One round of the hash loop keeps `hash` congruent to the rolling hash of the prefix read so far. */
  lemma HashLoopStep(str: string, i: nat, hash: int)
    requires i < |str| && hash % Two32 == Hash(str[..i])
    ensures (str[i] as int + (ToInt32(ToInt32(hash) * 32) - hash)) % Two32 == Hash(str[..i + 1])
  {
    JsStepAgrees(hash, str[i] as int);
    assert str[..i + 1][..i] == str[..i];
  }

  /** The colour spelled out: '#', then the hex bytes of channels 0, 1 and 2. */
  lemma ColorBytes(h: int)
    requires 0 <= h < Two32
    ensures ColorOf(h) == "#" + HexByte(Channel(h, 0)) + HexByte(Channel(h, 1)) + HexByte(Channel(h, 2))
  {
    assert HexPrefix(h, 1) == HexByte(Channel(h, 0));
    assert HexPrefix(h, 2) == HexByte(Channel(h, 0)) + HexByte(Channel(h, 1));
  }

  /** stringToColor(str), run as the source runs it. */
  method StringToColor(str: string) returns (color: string)
    ensures color == ColorFor(str)
  {
    var hash := 0;
    var i := 0;
    while i < |str|
      invariant 0 <= i <= |str|
      invariant hash % Two32 == Hash(str[..i])
    {
      HashLoopStep(str, i, hash);
      hash := str[i] as int + (ToInt32(ToInt32(hash) * 32) - hash);
      i := i + 1;
    }
    assert str[..|str|] == str;
    ghost var h := Hash(str);
    JsChannels(hash, h);
    color := "#";
    var k := 0;
    while k < 3
      invariant 0 <= k <= 3
      invariant color == "#" + HexPrefix(h, k)
    {
      var value := ShiftBytes(ToInt32(hash), k) % 256;
      PaddedHex(value);
      color := color + LastTwo("00" + ToHexString(value));
      k := k + 1;
    }
  }

  // ---------------------------------------------------------------------------
  // What the colour is

  /** Every colour is '#' and six lower-case hex digits. */
  lemma ColorShape(h: int)
    requires 0 <= h < Two32
    ensures IsColorString(ColorOf(h))
  {
    ColorBytes(h);
  }

  /** The colour decodes back to the hash's three low bytes, lowest byte first. */
  lemma ColorChannels(h: int, i: nat)
    requires 0 <= h < Two32 && i < 3
    ensures IsColorString(ColorOf(h))
    ensures HexDigitValue(ColorOf(h)[1 + 2 * i]) * 16 + HexDigitValue(ColorOf(h)[2 + 2 * i]) == Channel(h, i)
  {
    ColorBytes(h);
    var c := ColorOf(h);
    var v := Channel(h, i);
    assert c[1 + 2 * i] == HexDigit(v / 16) && c[2 + 2 * i] == HexDigit(v % 16);
    assert HexDigitValue(HexDigit(v / 16)) == v / 16 by {
      HexDigitIsInjective(HexDigitValue(HexDigit(v / 16)), v / 16);
    }
    assert HexDigitValue(HexDigit(v % 16)) == v % 16 by {
      HexDigitIsInjective(HexDigitValue(HexDigit(v % 16)), v % 16);
    }
  }

  lemma HexDigitIsInjective(a: int, b: int)
    requires 0 <= a < 16 && 0 <= b < 16 && HexDigit(a) == HexDigit(b)
    ensures a == b
  {
  }

  /**
   * Colours are not kept away from the highlight yellow: connection id
   * 22638725 is drawn in "#ffff00", the highlight's "#FFFF00" in lower case.
   */
  lemma HighlightYellowIsReachable()
    ensures ColorFor("22638725") == "#ffff00"
  {
    var id := "22638725";
    HashOfYellowId(id);
    YellowOfHash(Hash(id));
  }

  /** The rolling hash of "22638725", one character at a time. */
  lemma HashOfYellowId(id: string)
    requires id == "22638725"
    ensures Hash(id) == 4261478399
  {
    HashOfYellowIdPrefix(id);
    HashPrefixStep(id, 4);
    assert Hash(id[..5]) == 47719131;
    HashPrefixStep(id, 5);
    assert Hash(id[..6]) == 1479293116;
    HashPrefixStep(id, 6);
    assert Hash(id[..7]) == 2908413686;
    HashPrefixStep(id, 7);
    assert id[..8] == id;
  }

  /** The rolling hash of the first four characters, "2263". */
  lemma HashOfYellowIdPrefix(id: string)
    requires id == "22638725"
    ensures Hash(id[..4]) == 1539325
  {
    assert id[..0] == [];
    HashPrefixStep(id, 0);
    assert Hash(id[..1]) == 50;
    HashPrefixStep(id, 1);
    assert Hash(id[..2]) == 1600;
    HashPrefixStep(id, 2);
    assert Hash(id[..3]) == 49654;
    HashPrefixStep(id, 3);
  }

  /** 4261478399 is 0xfe00ffff: its low three bytes are ff, ff and 00. */
  lemma YellowOfHash(h: int)
    requires h == 4261478399
    ensures ColorOf(h) == "#ffff00"
  {
    ColorBytes(h);
    YellowChannels(h);
    HexBytesOfYellow();
  }

  /** The three channels of 0xfe00ffff. */
  lemma YellowChannels(h: int)
    requires h == 4261478399
    ensures Channel(h, 0) == 0xff && Channel(h, 1) == 0xff && Channel(h, 2) == 0
  {
    assert h == 0x1_0000 * 0xfe00 + 0x100 * 0xff + 0xff;
    assert ShiftBytes(h, 1) == 0x100 * 0xfe00 + 0xff;
    assert ShiftBytes(h, 2) == 0x100 * 0xfe + 0;
  }

  /** The hex bytes of the channels of 0xfe00ffff. */
  lemma HexBytesOfYellow()
    ensures "#" + HexByte(0xff) + HexByte(0xff) + HexByte(0) == "#ffff00"
  {
    assert HexDigit(15) == 'f' && HexDigit(0) == '0';
  }

  /** The hash of a prefix one character longer is one more step of the rolling hash. */
  lemma HashPrefixStep(s: string, k: nat)
    requires k < |s|
    ensures Hash(s[..k + 1]) == (31 * Hash(s[..k]) + s[k] as int) % Two32
  {
    assert s[..k + 1][..k] == s[..k];
  }

  /** Appending a character is one step of the rolling hash. */
  lemma HashSnoc(s: string, c: char)
    ensures Hash(s + [c]) == (31 * Hash(s) + c as int) % Two32
  {
    assert (s + [c])[..|s|] == s;
  }

  /** Two hashes give the same colour exactly when their low 24 bits agree. */
  lemma ColorIdentifiesLow24Bits(h1: int, h2: int)
    requires 0 <= h1 < Two32 && 0 <= h2 < Two32
    ensures ColorOf(h1) == ColorOf(h2) <==> h1 % 0x100_0000 == h2 % 0x100_0000
  {
    if ColorOf(h1) == ColorOf(h2) {
      SameColorSameChannels(h1, h2);
      Low24FromChannels(h1);
      Low24FromChannels(h2);
    }
    if h1 % 0x100_0000 == h2 % 0x100_0000 {
      ChannelsOfLow24(h1);
      ChannelsOfLow24(h2);
      ColorBytes(h1);
      ColorBytes(h2);
    }
  }

  /** Strings that differ only in their last character get different colours: "10" and "11", say. */
  lemma LastCharacterDistinguishes(prefix: string, a: char, b: char)
    requires a != b
    ensures ColorFor(prefix + [a]) != ColorFor(prefix + [b])
  {
    LastCharacterHashes(prefix, a, b);
    ColorIdentifiesLow24Bits(Hash(prefix + [a]), Hash(prefix + [b]));
  }

  /** The last character's code is added to the hash below 2^24, so two different codes leave different low 24 bits. */
  lemma LastCharacterHashes(prefix: string, a: char, b: char)
    requires a != b
    ensures Hash(prefix + [a]) % 0x100_0000 != Hash(prefix + [b]) % 0x100_0000
  {
    var x := 31 * Hash(prefix);
    assert (prefix + [a])[..|prefix|] == prefix && (prefix + [b])[..|prefix|] == prefix;
    assert Hash(prefix + [a]) == (x + a as int) % Two32;
    assert Hash(prefix + [b]) == (x + b as int) % Two32;
    Low24OfWrapped(x + a as int);
    Low24OfWrapped(x + b as int);
    SmallShiftDiffers(x, a as int, b as int);
  }

  /** Wrapping at 2^32 keeps the low 24 bits. */
  lemma Low24OfWrapped(y: int)
    ensures (y % Two32) % 0x100_0000 == y % 0x100_0000
  {
    var r := y % Two32;
    var q := y / Two32;
    var r1 := r / 0x100_0000;
    var r2 := r % 0x100_0000;
    assert r == 0x100_0000 * r1 + r2;
    assert y == 0x100_0000 * (0x100 * q + r1) + r2;
  }

  /** Adding two different values below 2^24 to the same number gives different residues mod 2^24. */
  lemma SmallShiftDiffers(x: int, a: int, b: int)
    requires 0 <= a < 0x11_0000 && 0 <= b < 0x11_0000 && a != b
    ensures (x + a) % 0x100_0000 != (x + b) % 0x100_0000
  {
    var qa := (x + a) / 0x100_0000;
    var qb := (x + b) / 0x100_0000;
    assert x + a == 0x100_0000 * qa + (x + a) % 0x100_0000;
    assert x + b == 0x100_0000 * qb + (x + b) % 0x100_0000;
  }

  /** Equal colours spell equal channels. */
  lemma SameColorSameChannels(h1: int, h2: int)
    requires 0 <= h1 < Two32 && 0 <= h2 < Two32
    requires ColorOf(h1) == ColorOf(h2)
    ensures forall i :: 0 <= i < 3 ==> Channel(h1, i) == Channel(h2, i)
  {
    forall i | 0 <= i < 3
      ensures Channel(h1, i) == Channel(h2, i)
    {
      ColorChannels(h1, i);
      ColorChannels(h2, i);
    }
  }

  /** The low 24 bits are the three channels, lowest first. */
  lemma Low24FromChannels(h: int)
    requires 0 <= h < Two32
    ensures h % 0x100_0000 == Channel(h, 0) + 0x100 * Channel(h, 1) + 0x1_0000 * Channel(h, 2)
  {
    var c0 := h % 0x100;
    var q0 := h / 0x100;
    assert h == 0x100 * q0 + c0;
    var c1 := q0 % 0x100;
    var q1 := q0 / 0x100;
    assert q0 == 0x100 * q1 + c1;
    assert h == 0x1_0000 * q1 + (0x100 * c1 + c0);
    assert h / 0x1_0000 == q1;
    var c2 := q1 % 0x100;
    var q2 := q1 / 0x100;
    assert q1 == 0x100 * q2 + c2;
    assert h == 0x100_0000 * q2 + (c0 + 0x100 * c1 + 0x1_0000 * c2);
    assert Channel(h, 0) == c0 && Channel(h, 1) == c1 && Channel(h, 2) == c2;
  }

  /** The channels depend only on the low 24 bits. */
  lemma ChannelsOfLow24(h: int)
    requires 0 <= h < Two32
    ensures forall i :: 0 <= i < 3 ==> Channel(h, i) == Channel(h % 0x100_0000, i)
  {
    var q := h / 0x100_0000;
    var l := h % 0x100_0000;
    assert h == l + 0x100_0000 * q;
    ByteAboveLow24(h, l, q, 0);
    ByteAboveLow24(h, l, q, 1);
    ByteAboveLow24(h, l, q, 2);
  }

  /** Bits at or above bit 24 do not reach the byte that starts at bit 0, 8 or 16. */
  lemma ByteAboveLow24(h: int, l: int, q: int, i: nat)
    requires 0 <= l < 0x100_0000 && h == l + 0x100_0000 * q && i < 3
    ensures ShiftBytes(h, i) % 0x100 == ShiftBytes(l, i) % 0x100
  {
    if i == 0 {
      ByteOfMultipleAdded(l, 0x1_0000 * q);
    } else if i == 1 {
      var a := l / 0x100;
      var b := l % 0x100;
      assert l == 0x100 * a + b;
      assert h == 0x100 * (a + 0x1_0000 * q) + b;
      assert h / 0x100 == a + 0x100 * (0x100 * q);
      ByteOfMultipleAdded(a, 0x100 * q);
    } else {
      var a := l / 0x1_0000;
      var b := l % 0x1_0000;
      assert l == 0x1_0000 * a + b;
      assert h == 0x1_0000 * (a + 0x100 * q) + b;
      assert h / 0x1_0000 == a + 0x100 * q;
      ByteOfMultipleAdded(a, q);
    }
  }

  /** Adding a multiple of 256 leaves the low byte alone. */
  lemma ByteOfMultipleAdded(a: int, k: int)
    ensures (a + 0x100 * k) % 0x100 == a % 0x100
  {
    var r := a % 0x100;
    assert a == 0x100 * (a / 0x100) + r;
    assert a + 0x100 * k == 0x100 * (a / 0x100 + k) + r;
  }
}
