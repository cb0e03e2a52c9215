/** Numbers as bytes on flash. */
module FlashNumbers {

  type byte = bv8

  /** Half a byte for a number below sixteen, and back. */
  function Nibble(k: nat): (b: byte)
    requires k < 16
    ensures b < 16
  {
    match k
    case 0 => 0
    case 1 => 1
    case 2 => 2
    case 3 => 3
    case 4 => 4
    case 5 => 5
    case 6 => 6
    case 7 => 7
    case 8 => 8
    case 9 => 9
    case 10 => 10
    case 11 => 11
    case 12 => 12
    case 13 => 13
    case 14 => 14
    case _ => 15
  }

  function NibbleValue(b: byte): (k: nat)
    requires b < 16
    ensures k < 16
  {
    match b
    case 0 => 0
    case 1 => 1
    case 2 => 2
    case 3 => 3
    case 4 => 4
    case 5 => 5
    case 6 => 6
    case 7 => 7
    case 8 => 8
    case 9 => 9
    case 10 => 10
    case 11 => 11
    case 12 => 12
    case 13 => 13
    case 14 => 14
    case _ => 15
  }

  lemma NibbleRoundTrip(k: nat)
    requires k < 16
    ensures NibbleValue(Nibble(k)) == k
  {
  }

  function Joined(h: byte, l: byte): byte { (h << 4) | l }
  function High(b: byte): (h: byte) ensures h < 16 { b >> 4 }
  function Low(b: byte): (l: byte) ensures l < 16 { b & 15 }

  lemma HalvesOfJoined(h: byte, l: byte)
    requires h < 16 && l < 16
    ensures High(Joined(h, l)) == h && Low(Joined(h, l)) == l
  {
  }

  /** The low byte of a number, and the number of a byte. */
  function ByteOf(n: nat): byte { Joined(Nibble(n / 16 % 16), Nibble(n % 16)) }

  function Value(b: byte): (n: nat)
    ensures n < 0x100
  {
    NibbleValue(High(b)) * 16 + NibbleValue(Low(b))
  }

  lemma ByteRoundTrip(n: nat)
    ensures Value(ByteOf(n)) == n % 0x100
  {
    hide Nibble, NibbleValue, Joined, High, Low;
    HalvesOfJoined(Nibble(n / 16 % 16), Nibble(n % 16));
    NibbleRoundTrip(n / 16 % 16);
    NibbleRoundTrip(n % 16);
    LowDigits(n);
  }

  lemma LowDigits(n: nat)
    ensures n / 16 % 16 * 16 + n % 16 == n % 0x100
  {
  }

  /** A number below 2^32 in little-endian order. */
  function NatBytes(n: nat): (s: seq<byte>)
    ensures |s| == 4
  {
    [ByteOf(n), ByteOf(n / 0x100), ByteOf(n / 0x1_0000), ByteOf(n / 0x100_0000)]
  }

  function NatOf(s: seq<byte>): nat
    requires |s| == 4
  {
    Value(s[0]) + Value(s[1]) * 0x100 + Value(s[2]) * 0x1_0000 + Value(s[3]) * 0x100_0000
  }

  lemma QuotientOfQuotient(n: nat, d: nat)
    requires d == 0x100 || d == 0x1_0000
    ensures n / (d * 0x100) == (n / d) / 0x100
  {
  }

  lemma Digits(n: nat)
    requires n < 0x1_0000_0000
    ensures n == n % 0x100 + (n / 0x100) % 0x100 * 0x100 + (n / 0x1_0000) % 0x100 * 0x1_0000
                 + (n / 0x100_0000) % 0x100 * 0x100_0000
  {
    QuotientOfQuotient(n, 0x100);
    QuotientOfQuotient(n, 0x1_0000);
    var a, b, c := n / 0x100, n / 0x1_0000, n / 0x100_0000;
    assert n == a * 0x100 + n % 0x100 && a == b * 0x100 + a % 0x100 && b == c * 0x100 + b % 0x100;
    assert c < 0x100;
  }

  lemma NatRoundTrip(n: nat)
    requires n < 0x1_0000_0000
    ensures NatOf(NatBytes(n)) == n
  {
    hide ByteOf, Value;
    Digits(n);
    ByteRoundTrip(n);
    ByteRoundTrip(n / 0x100);
    ByteRoundTrip(n / 0x1_0000);
    ByteRoundTrip(n / 0x100_0000);
  }
}
