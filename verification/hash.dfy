/** `hashString`: the djb2 hash with xor, over UTF-16 code units, rendered as eight lower-case
    hexadecimal digits. JavaScript computes `(hash * 33) ^ code` on doubles, but the product of an
    int32 and 33 stays below 2^53 and `^` reduces its operands to int32, so the state is exactly a
    32-bit word updated with wrap-around multiplication; `>>> 0` then reads it as unsigned. */
module Hash {

  const Seed: bv32 := 5381

  /** A UTF-16 code unit. */
  type CodeUnit = u: int | 0 <= u < 0x1_0000

  /** The UTF-16 code units of one character: itself below U+10000, else a surrogate pair. */
  function Units(c: char): (r: seq<CodeUnit>)
    ensures 1 <= |r| <= 2
    ensures (c as int) < 0x1_0000 ==> r == [c as int]
  {
    if (c as int) < 0x1_0000 then [c as int]
    else
      var v := c as int - 0x1_0000;
      [0xD800 + v / 0x400, 0xDC00 + v % 0x400]
  }

  /** What `charCodeAt` reads, index by index. */
  function CodeUnits(s: string): (r: seq<CodeUnit>)
    ensures |s| <= |r|
  {
    if |s| == 0 then [] else Units(s[0]) + CodeUnits(s[1..])
  }

  lemma {:induction false} CodeUnitsAppend(a: string, b: string)
    ensures CodeUnits(a + b) == CodeUnits(a) + CodeUnits(b)
    decreases |a|
  {
    if |a| == 0 {
      assert a + b == b;
    } else {
      assert (a + b)[1..] == a[1..] + b;
      CodeUnitsAppend(a[1..], b);
    }
  }

  /** One round: multiply by 33 with wrap-around, then xor the code unit in. */
  function Step(h: bv32, u: CodeUnit): bv32 {
    (h * 33) ^ (u as bv32)
  }

  /** The hash state after consuming `units` from the seed, left to right. */
  function State(units: seq<CodeUnit>): bv32 {
    if |units| == 0 then Seed else Step(State(units[..|units| - 1]), units[|units| - 1])
  }

  predicate IsLowerHex(c: char) {
    '0' <= c <= '9' || 'a' <= c <= 'f'
  }

  function HexDigit(d: nat): (c: char)
    requires d < 16
    ensures IsLowerHex(c)
  {
    if d < 10 then ('0' as int + d) as char else ('a' as int + d - 10) as char
  }

  /** `n.toString(16)`: lower-case digits without leading zeros. */
  function Hex(n: nat): (r: string)
    ensures |r| > 0
    ensures forall i :: 0 <= i < |r| ==> IsLowerHex(r[i])
  {
    if n < 16 then [HexDigit(n)] else Hex(n / 16) + [HexDigit(n % 16)]
  }

  /** `padStart(len, c)`. */
  function PadStart(s: string, len: nat, c: char): (r: string)
    ensures |r| == if |s| >= len then |s| else len
    ensures r[|r| - |s|..] == s
    ensures forall i :: 0 <= i < |r| - |s| ==> r[i] == c
  {
    if |s| >= len then s else seq(len - |s|, _ => c) + s
  }

  /** The value of a string of hexadecimal digits. */
  function HexValue(s: string): nat
    requires forall i :: 0 <= i < |s| ==> IsLowerHex(s[i])
  {
    if |s| == 0 then 0
    else
      var c := s[|s| - 1];
      assert IsLowerHex(c);
      16 * HexValue(s[..|s| - 1]) + (if c <= '9' then c as int - '0' as int else c as int - 'a' as int + 10)
  }

  lemma {:induction false} HexLength(n: nat, k: nat)
    requires 0 < k && n < Pow16(k)
    ensures |Hex(n)| <= k
  {
    if n >= 16 {
      HexLength(n / 16, k - 1);
    }
  }

  function Pow16(k: nat): nat {
    if k == 0 then 1 else 16 * Pow16(k - 1)
  }

  /** A 32-bit value has at most eight hexadecimal digits. */
  lemma BelowPow16(h: nat)
    requires h < 0x1_0000_0000
    ensures |Hex(h)| <= 8
  {
    assert Pow16(8) == 0x1_0000_0000;
    HexLength(h, 8);
  }

  lemma {:induction false} HexRoundTrip(n: nat)
    ensures HexValue(Hex(n)) == n
  {
    if n >= 16 {
      HexRoundTrip(n / 16);
      var h := Hex(n);
      assert h[..|h| - 1] == Hex(n / 16);
    }
  }

  /** Leading zeros add nothing to the value. */
  lemma {:induction false} HexValueZeros(k: nat, s: string)
    requires forall i :: 0 <= i < |s| ==> IsLowerHex(s[i])
    ensures HexValue(seq(k, _ => '0') + s) == HexValue(s)
    decreases |s|
  {
    var w := seq(k, _ => '0') + s;
    if |s| == 0 {
      ZerosValue(k);
      assert w == seq(k, _ => '0');
    } else {
      assert w[..|w| - 1] == seq(k, _ => '0') + s[..|s| - 1];
      HexValueZeros(k, s[..|s| - 1]);
    }
  }

  lemma {:induction false} ZerosValue(k: nat)
    ensures HexValue(seq(k, _ => '0')) == 0
  {
    if k > 0 {
      assert seq(k, _ => '0')[..k - 1] == seq(k - 1, _ => '0');
      ZerosValue(k - 1);
    }
  }

  /** `hashString(input)`. */
  function HashString(s: string): (r: string)
    ensures |r| == 8
    ensures forall i :: 0 <= i < |r| ==> IsLowerHex(r[i])
  {
    var h := State(CodeUnits(s)) as int;
    BelowPow16(h);
    PadStart(Hex(h), 8, '0')
  }

  /** The eight digits spell the final state. */
  lemma HashValue(s: string)
    ensures HexValue(HashString(s)) == State(CodeUnits(s)) as int
  {
    PaddedHexValue(State(CodeUnits(s)) as int);
  }

  /** Padding the hexadecimal rendering of a 32-bit value to eight digits keeps its value. */
  lemma PaddedHexValue(n: nat)
    requires n < 0x1_0000_0000
    ensures |Hex(n)| <= 8
    ensures HexValue(PadStart(Hex(n), 8, '0')) == n
  {
    BelowPow16(n);
    HexRoundTrip(n);
    HexValueZeros(8 - |Hex(n)|, Hex(n));
  }

  /** Hashing is a left fold over the code units: one more character is one more round. */
  lemma HashFold(s: string, c: char)
    requires (c as int) < 0x1_0000
    ensures State(CodeUnits(s + [c])) == Step(State(CodeUnits(s)), c as int)
  {
    CodeUnitsAppend(s, [c]);
    assert CodeUnits([c]) == [c as int];
    var u := CodeUnits(s + [c]);
    assert u[..|u| - 1] == CodeUnits(s);
  }

  /** The empty string hashes to the seed, 5381, which is 0x1505. */
  lemma HashEmpty()
    ensures HashString("") == "00001505"
  {
    assert Hex(5381) == "1505" by {
      assert Hex(1) == "1";
      assert Hex(21) == "15";
      assert Hex(336) == "150";
    }
  }

  /** The source's loop: one round per code unit, then the unsigned value padded to 8 digits. */
  method HashLoop(s: string) returns (r: string)
    ensures r == HashString(s)
  {
    var units := CodeUnits(s);
    var hash: bv32 := 5381;
    for index := 0 to |units|
      invariant hash == State(units[..index])
    {
      assert units[..index + 1][..index] == units[..index];
      hash := Step(hash, units[index]);
    }
    assert units[..|units|] == units;
    r := PadStart(Hex(hash as int), 8, '0');
  }
}
