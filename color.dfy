/** The pastel background colour of a company's initial: a string hash of the
    name mapped to bounded hue, saturation and lightness. */
module CompanyColor {
  import opened Strings

  const Two31: int := 0x8000_0000
  const Two32: int := 0x1_0000_0000

  /** ToInt32 of an integral Number (section 7.1.6 of ECMA-262): the value
      modulo 2^32, read as a 32-bit two's complement integer. */
  function ToInt32(x: int): (r: int)
    ensures -Two31 <= r < Two31
    ensures (x - r) % Two32 == 0
  {
    var m := x % Two32;
    if m >= Two31 then m - Two32 else m
  }

  /** `x << 5` (section 13.9.1 of ECMA-262): the left operand becomes an
      int32, and the shifted bits are again read as an int32. */
  function ShiftLeft5(x: int): (r: int)
    ensures -Two31 <= r < Two31
    ensures (r - 32 * x) % Two32 == 0
  {
    var t := ToInt32(x);
    var r := ToInt32(t * 32);
    MultipleScale(x - t, 32);
    MultipleAdd(32 * (x - t), r - t * 32);
    assert r - 32 * x == -(32 * (x - t) + (t * 32 - r));
    MultipleNeg(32 * (x - t) + (t * 32 - r));
    r
  }

  /** Multiples of 2^32 are closed under scaling, addition and negation. */
  lemma MultipleScale(a: int, k: int)
    requires a % Two32 == 0
    ensures (k * a) % Two32 == 0
  {
    var q := a / Two32;
    assert a == Two32 * q;
    assert k * a == Two32 * (k * q);
  }

  lemma MultipleAdd(a: int, b: int)
    requires a % Two32 == 0 && b % Two32 == 0
    ensures (a + b) % Two32 == 0
  {
    assert a == Two32 * (a / Two32) && b == Two32 * (b / Two32);
    assert a + b == Two32 * (a / Two32 + b / Two32);
  }

  lemma MultipleNeg(a: int)
    requires a % Two32 == 0
    ensures (-a) % Two32 == 0
  {
    assert a == Two32 * (a / Two32);
    assert -a == Two32 * -(a / Two32);
  }

  /** One iteration of the loop: `hash = code + ((hash << 5) - hash)`. The
      subtraction and addition are exact, because the hash stays far below
      2^53 (see HashMagnitude). */
  function HashStep(hash: int, c: char): int {
    c as int + (ShiftLeft5(hash) - hash)
  }

  /** The hash after the loop has consumed all of `name`, starting from 0.
      Since `hash << 5` is `32 * hash` modulo 2^32, each step is
      `31 * hash + code` modulo 2^32: the hash agrees modulo 2^32 with the
      untruncated polynomial of PolyHash. */
  function NameHash(name: string): (h: int)
    ensures (h - PolyHash(name)) % Two32 == 0
  {
    if name == [] then 0
    else
      var p, c := name[..|name| - 1], name[|name| - 1];
      var h := NameHash(p);
      var s := ShiftLeft5(h);
      MultipleScale(h - PolyHash(p), 31);
      MultipleAdd(s - 32 * h, 31 * (h - PolyHash(p)));
      assert HashStep(h, c) - PolyHash(name) == (s - 32 * h) + 31 * (h - PolyHash(p));
      HashStep(h, c)
  }

  /** `31 * h + code` over the name without any truncation, the polynomial
      `name[0] * 31^(n-1) + ... + name[n-1]` of Java's `String.hashCode`. */
  function PolyHash(name: string): int {
    if name == [] then 0
    else 31 * PolyHash(name[..|name| - 1]) + name[|name| - 1] as int
  }

  const MaxCharCode: int := 0x10FFFF

  /** The hash grows by less than 2^31 + 2^21 per character, so for any name
      shorter than four million characters it stays below 2^53 and the
      Number arithmetic of the source is exact integer arithmetic. */
  lemma {:induction false} HashMagnitude(name: string)
    ensures -|name| * (Two31 + MaxCharCode + 1) <= NameHash(name) <= |name| * (Two31 + MaxCharCode + 1)
  {
    if name != [] {
      var p := name[..|name| - 1];
      HashMagnitude(p);
      var h := NameHash(p);
      var s := ShiftLeft5(h);
      assert NameHash(name) == name[|name| - 1] as int + s - h;
      assert |name| * (Two31 + MaxCharCode + 1) == |p| * (Two31 + MaxCharCode + 1) + (Two31 + MaxCharCode + 1);
    }
  }

  datatype Hsl = Hsl(hue: nat, saturation: nat, lightness: nat)

  /** Hue, saturation and lightness from the hash: `Math.abs(hash)` modulo 360,
      20 and 15, the latter two offset to 60 and 70. */
  function HashColor(hash: int): (c: Hsl)
    ensures 0 <= c.hue < 360
    ensures 60 <= c.saturation < 80
    ensures 70 <= c.lightness < 85
  {
    var a := if hash < 0 then -hash else hash;
    Hsl(a % 360, 60 + a % 20, 70 + a % 15)
  }

  /** 20 and 15 divide 360, so the hue alone fixes saturation and lightness:
      the palette has at most 360 colours. */
  lemma HueFixesColor(hash: int)
    ensures var c := HashColor(hash);
            c.saturation == 60 + c.hue % 20 && c.lightness == 70 + c.hue % 15
  {
    var a := if hash < 0 then -hash else hash;
    var q, h := a / 360, a % 360;
    assert a == 360 * q + h;
    assert a == 20 * (18 * q + h / 20) + h % 20;
    ModTwenty(18 * q + h / 20, h % 20);
    assert a == 15 * (24 * q + h / 15) + h % 15;
    ModFifteen(24 * q + h / 15, h % 15);
  }

  lemma ModTwenty(m: int, r: int)
    requires 0 <= r < 20
    ensures (20 * m + r) % 20 == r
  {
  }

  lemma ModFifteen(m: int, r: int)
    requires 0 <= r < 15
    ensures (15 * m + r) % 15 == r
  {
  }

  /** `hsl(H, S%, L%)`. */
  function HslText(c: Hsl): string {
    "hsl(" + NatToString(c.hue) + ", " + NatToString(c.saturation) + "%, "
    + NatToString(c.lightness) + "%)"
  }

  /** `getCompanyColor`: hash the name character by character, one Unicode
      scalar value at a time, then format. README.md, under "Left out", says
      how this differs from `charCodeAt` outside the Basic Multilingual
      Plane. */
  method GetCompanyColor(companyName: string) returns (color: string)
    ensures color == HslText(HashColor(NameHash(companyName)))
  {
    var hash := 0;
    for i := 0 to |companyName|
      invariant hash == NameHash(companyName[..i])
    {
      assert companyName[..i + 1][..i] == companyName[..i];
      assert companyName[..i + 1][i] == companyName[i];
      hash := companyName[i] as int + (ShiftLeft5(hash) - hash);
    }
    assert companyName[..|companyName|] == companyName;
    var magnitude := if hash < 0 then -hash else hash;
    var hue := magnitude % 360;
    var saturation := 60 + magnitude % 20;
    var lightness := 70 + magnitude % 15;
    assert HashColor(hash) == Hsl(hue, saturation, lightness);
    color := "hsl(" + NatToString(hue) + ", " + NatToString(saturation) + "%, "
      + NatToString(lightness) + "%)";
  }

  /** The empty name hashes to 0 and gets the palest, least saturated red. */
  lemma EmptyNameColor()
    ensures HslText(HashColor(NameHash(""))) == "hsl(0, 60%, 70%)"
  {
    assert NatToString(0) == "0";
    assert NatToString(60) == "60";
    assert NatToString(70) == "70";
  }
}
