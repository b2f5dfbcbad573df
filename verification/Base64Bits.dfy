/** Base64 as section 4 of RFC 4648 describes it: the bits of the octets in order, six at a time. */
module Base64Bits {
  import opened Wrappers
  import opened Base64

  const UPPER := "ABCDEFGHIJKLMNOPQRSTUVWXYZ"
  const LOWER := "abcdefghijklmnopqrstuvwxyz"
  const OTHERS := "0123456789+/"

  /** Table 1 of RFC 4648. */
  function Table(n: nat): char
    requires n < 64
  {
    if n < 26 then UPPER[n] else if n < 52 then LOWER[n - 26] else OTHERS[n - 52]
  }

  lemma UpperLetters(i: nat)
    requires i < 26
    ensures UPPER[i] as int == 65 + i
  {
  }

  lemma LowerLetters(i: nat)
    requires i < 26
    ensures LOWER[i] as int == 97 + i
  {
  }

  lemma OtherLetters(i: nat)
    requires i < 12
    ensures OTHERS[i] == Digit(i + 52)
  {
  }

  lemma DigitIsInTable(n: nat)
    requires n < 64
    ensures Digit(n) == Table(n)
  {
    if n < 26 { UpperLetters(n); } else if n < 52 { LowerLetters(n - 26); } else { OtherLetters(n - 52); }
  }

  /** Bit `n` of an octet, the most significant one first. */
  function Bit(a: nat, n: nat): nat
    requires n < 8
  {
    match n
    case 0 => a / 128 % 2
    case 1 => a / 64 % 2
    case 2 => a / 32 % 2
    case 3 => a / 16 % 2
    case 4 => a / 8 % 2
    case 5 => a / 4 % 2
    case 6 => a / 2 % 2
    case _ => a % 2
  }

  /** Zero behind the octets. */
  function OctetAt(s: Octets, i: nat): (a: nat)
    ensures a < 256
  {
    if i < |s| then s[i] as int else 0
  }

  function BitAt(s: Octets, n: nat): nat { Bit(OctetAt(s, n / 8), n % 8) }

  /** Six bits from number 6j on as a number. */
  function Sextet(s: Octets, j: nat): nat {
    BitAt(s, 6 * j) * 32 + BitAt(s, 6 * j + 1) * 16 + BitAt(s, 6 * j + 2) * 8
    + BitAt(s, 6 * j + 3) * 4 + BitAt(s, 6 * j + 4) * 2 + BitAt(s, 6 * j + 5)
  }

  lemma Halves(x: nat)
    ensures x == 2 * (x / 2) + x % 2
    ensures x / 2 / 2 == x / 4 && x / 4 / 2 == x / 8 && x / 8 / 2 == x / 16
  {
  }

  lemma MoreHalves(x: nat)
    ensures x / 16 / 2 == x / 32 && x / 32 / 2 == x / 64 && x / 64 / 2 == x / 128
  {
  }

  lemma Remainders(a: nat)
    requires a < 256
    ensures a % 4 == a - a / 4 * 4 && a % 16 == a - a / 16 * 16 && a % 64 == a - a / 64 * 64
    ensures a / 128 % 2 == a / 128
  {
  }

  lemma BitsAdd(a: nat, q: seq<nat>, b: seq<nat>)
    requires |q| == |b| == 8 && q[7] == a && q[0] == b[0] && forall k :: 0 < k < 8 ==> q[k] == 2 * q[k - 1] + b[k]
    ensures q[5] == b[0] * 32 + b[1] * 16 + b[2] * 8 + b[3] * 4 + b[4] * 2 + b[5]
    ensures q[3] == b[0] * 8 + b[1] * 4 + b[2] * 2 + b[3] && q[1] == b[0] * 2 + b[1]
    ensures a - 4 * q[5] == b[6] * 2 + b[7]
    ensures a - 16 * q[3] == b[4] * 8 + b[5] * 4 + b[6] * 2 + b[7]
    ensures a - 64 * q[1] == b[2] * 32 + b[3] * 16 + b[4] * 8 + b[5] * 4 + b[6] * 2 + b[7]
  {
    assert q[1] == 2 * q[0] + b[1] && q[2] == 2 * q[1] + b[2] && q[3] == 2 * q[2] + b[3] && q[4] == 2 * q[3] + b[4];
    assert q[5] == 2 * q[4] + b[5] && q[6] == 2 * q[5] + b[6] && q[7] == 2 * q[6] + b[7];
  }

  lemma OctetBits(a: nat)
    requires a < 256
    ensures a / 4 == Bit(a, 0) * 32 + Bit(a, 1) * 16 + Bit(a, 2) * 8 + Bit(a, 3) * 4 + Bit(a, 4) * 2 + Bit(a, 5)
    ensures a / 16 == Bit(a, 0) * 8 + Bit(a, 1) * 4 + Bit(a, 2) * 2 + Bit(a, 3)
    ensures a / 64 == Bit(a, 0) * 2 + Bit(a, 1)
    ensures a % 4 == Bit(a, 6) * 2 + Bit(a, 7)
    ensures a % 16 == Bit(a, 4) * 8 + Bit(a, 5) * 4 + Bit(a, 6) * 2 + Bit(a, 7)
    ensures a % 64 == Bit(a, 2) * 32 + Bit(a, 3) * 16 + Bit(a, 4) * 8 + Bit(a, 5) * 4 + Bit(a, 6) * 2 + Bit(a, 7)
  {
    BitHalves(a);
    Remainders(a);
    hide Bit;
    BitsAdd(a, [a / 128, a / 64, a / 32, a / 16, a / 8, a / 4, a / 2, a],
            [Bit(a, 0), Bit(a, 1), Bit(a, 2), Bit(a, 3), Bit(a, 4), Bit(a, 5), Bit(a, 6), Bit(a, 7)]);
  }

  lemma BitHalves(a: nat)
    requires a < 256
    ensures a / 128 == Bit(a, 0) && a / 64 == 2 * (a / 128) + Bit(a, 1) && a / 32 == 2 * (a / 64) + Bit(a, 2)
    ensures a / 16 == 2 * (a / 32) + Bit(a, 3) && a / 8 == 2 * (a / 16) + Bit(a, 4)
    ensures a / 4 == 2 * (a / 8) + Bit(a, 5) && a / 2 == 2 * (a / 4) + Bit(a, 6) && a == 2 * (a / 2) + Bit(a, 7)
  {
    Halves(a);
    MoreHalves(a);
    Remainders(a);
    Halves(a / 2);
    Halves(a / 4);
    Halves(a / 8);
    Halves(a / 16);
    Halves(a / 32);
    Halves(a / 64);
  }

  /** Character `j` of the encoding: the letter of its six bits, or padding behind the octets. */
  function Letter(s: Octets, j: nat): char {
    if 6 * j >= 8 * |s| then '=' else if Sextet(s, j) < 64 then Table(Sextet(s, j)) else '='
  }

  lemma BitIsSmall(a: nat, n: nat)
    requires n < 8
    ensures Bit(a, n) < 2
  {
  }

  lemma SextetIsSmall(s: Octets, j: nat)
    ensures Sextet(s, j) < 64
  {
    hide Bit;
    forall n: nat ensures BitAt(s, n) < 2 { BitIsSmall(OctetAt(s, n / 8), n % 8); }
    hide BitAt;
  }

  lemma FirstBits(s: Octets)
    ensures var a, b := OctetAt(s, 0), OctetAt(s, 1);
            && Sextet(s, 0) == Bit(a, 0) * 32 + Bit(a, 1) * 16 + Bit(a, 2) * 8 + Bit(a, 3) * 4 + Bit(a, 4) * 2 + Bit(a, 5)
            && Sextet(s, 1) == Bit(a, 6) * 32 + Bit(a, 7) * 16 + Bit(b, 0) * 8 + Bit(b, 1) * 4 + Bit(b, 2) * 2 + Bit(b, 3)
  {
    hide Bit, OctetAt;
  }

  lemma NextBits(s: Octets)
    ensures var b, c := OctetAt(s, 1), OctetAt(s, 2);
            && Sextet(s, 2) == Bit(b, 4) * 32 + Bit(b, 5) * 16 + Bit(b, 6) * 8 + Bit(b, 7) * 4 + Bit(c, 0) * 2 + Bit(c, 1)
            && Sextet(s, 3) == Bit(c, 2) * 32 + Bit(c, 3) * 16 + Bit(c, 4) * 8 + Bit(c, 5) * 4 + Bit(c, 6) * 2 + Bit(c, 7)
  {
    hide Bit, OctetAt;
  }

  /** The first four sextets. */
  lemma FirstSextets(s: Octets)
    ensures var a, b, c := OctetAt(s, 0), OctetAt(s, 1), OctetAt(s, 2);
            && Sextet(s, 0) == a / 4 && Sextet(s, 1) == a % 4 * 16 + b / 16
            && Sextet(s, 2) == b % 16 * 4 + c / 64 && Sextet(s, 3) == c % 64
  {
    hide Bit, OctetAt, Sextet;
    FirstBits(s);
    NextBits(s);
    OctetBits(OctetAt(s, 0));
    OctetBits(OctetAt(s, 1));
    OctetBits(OctetAt(s, 2));
  }

  lemma ShiftedBit(s: Octets, n: nat)
    requires |s| > 3
    ensures BitAt(s, n + 24) == BitAt(s[3..], n)
  {
    hide Bit;
    assert (n + 24) / 8 == n / 8 + 3 && (n + 24) % 8 == n % 8;
  }

  lemma ShiftedLetters(s: Octets, j: nat)
    requires |s| > 3
    ensures Letter(s, j + 4) == Letter(s[3..], j)
  {
    hide BitAt;
    var n := 6 * j;
    ShiftedBit(s, n);
    ShiftedBit(s, n + 1);
    ShiftedBit(s, n + 2);
    ShiftedBit(s, n + 3);
    ShiftedBit(s, n + 4);
    ShiftedBit(s, n + 5);
    assert Sextet(s, j + 4) == Sextet(s[3..], j);
    hide Sextet;
  }

  lemma FirstLetters(s: Octets)
    requires s != []
    ensures var group := EncodeGroup(if |s| <= 3 then s else s[..3]);
            forall j :: 0 <= j < 4 ==> group[j] == Letter(s, j)
  {
    hide Sextet, Digit;
    FirstSextets(s);
    forall j | 0 <= j < 4 ensures EncodeGroup(if |s| <= 3 then s else s[..3])[j] == Letter(s, j) {
      SextetIsSmall(s, j);
      DigitIsInTable(Sextet(s, j));
    }
  }

  lemma LettersJoin(s: Octets, group: string, rest: string)
    requires |s| > 3 && |group| == 4
    requires forall j :: 0 <= j < 4 ==> group[j] == Letter(s, j)
    requires forall j :: 0 <= j < |rest| ==> rest[j] == Letter(s[3..], j)
    ensures forall j :: 0 <= j < |group + rest| ==> (group + rest)[j] == Letter(s, j)
  {
    hide Letter;
    forall j | 0 <= j < |group + rest| ensures (group + rest)[j] == Letter(s, j) {
      if j >= 4 { ShiftedLetters(s, j - 4); }
    }
  }

  /** Every character of the encoding is the letter of its six bits. */
  lemma {:induction false} EncodingIsSextets(s: Octets)
    ensures |Encode(s)| == 4 * ((|s| + 2) / 3)
    ensures forall j :: 0 <= j < |Encode(s)| ==> Encode(s)[j] == Letter(s, j)
    decreases |s|
  {
    hide EncodeGroup, Letter;
    if s != [] {
      FirstLetters(s);
      if |s| > 3 {
        EncodingIsSextets(s[3..]);
        LettersJoin(s, EncodeGroup(s[..3]), Encode(s[3..]));
        assert (|s| + 2) / 3 == 1 + (|s[3..]| + 2) / 3;
      }
    }
  }
}
