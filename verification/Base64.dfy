/** Base64 as in section 4 of RFC 4648, with the bit accumulator of the encoder and decoder. */
module Base64 {
  import opened Arith
  import opened Word64

  const INT_RANGE: nat := 0x1_0000_0000

  type digit = d: nat | d < 64

  // The alphabet: upper case letters, lower case letters, decimal digits, plus and slash.
  function CharOf(d: digit): char {
    if d < 26 then 'A' + d as char
    else if d < 52 then 'a' + (d - 26) as char
    else if d < 62 then '0' + (d - 52) as char
    else if d == 62 then '+' else '/'
  }

  // The digit a character stands for, or -1.
  function DigitOf(c: char): int {
    if 'A' <= c <= 'Z' then c as int - 'A' as int
    else if 'a' <= c <= 'z' then c as int - 'a' as int + 26
    else if '0' <= c <= '9' then c as int - '0' as int + 52
    else if c == '+' then 62
    else if c == '/' then 63
    else -1
  }

  lemma AlphabetDigits(d: digit)
    ensures DigitOf(CharOf(d)) == d && CharOf(d) as int < 128
  {
  }

  lemma DigitIsInAlphabet(c: char)
    ensures -1 <= DigitOf(c) < 64
    ensures DigitOf(c) >= 0 ==> CharOf(DigitOf(c)) == c
  {
  }

  // ---- The encoding: three bytes are four digits ----

  // The length of the whole groups of three bytes, or of four digits.
  function Whole3(n: nat): (w: nat)
    ensures w <= n && w % 3 == 0 && n - w == n % 3
  {
    n - n % 3
  }

  function Whole4(n: nat): (w: nat)
    ensures w <= n && w % 4 == 0 && n - w == n % 4
  {
    n - n % 4
  }

  lemma Whole3Is(n: nat, w: nat)
    requires w <= n && w % 3 == 0 && n - w < 3
    ensures Whole3(n) == w
  {
    AddMultiple(n - w, w / 3, 3);
  }

  lemma Whole4Is(n: nat, w: nat)
    requires w <= n && w % 4 == 0 && n - w < 4
    ensures Whole4(n) == w
  {
    AddMultiple(n - w, w / 4, 4);
  }

  // The four digits of a group, from the bytes that hold their bits.
  function Digit0(a: byte): digit { a / 4 }

  function Digit1(a: byte, b: byte): digit { a % 4 * 16 + b / 16 }

  function Digit2(b: byte, c: byte): digit { b % 16 * 4 + c / 64 }

  function Digit3(c: byte): digit { c % 64 }

  function GroupDigits(a: byte, b: byte, c: byte): (g: seq<digit>)
    ensures |g| == 4
  {
    [Digit0(a), Digit1(a, b), Digit2(b, c), Digit3(c)]
  }

  // The digits of whole groups.
  function FullDigits(s: seq<byte>): (d: seq<digit>)
    requires |s| % 3 == 0
    ensures |d| == |s| / 3 * 4 && |d| % 4 == 0
  {
    if s == [] then []
    else
      var n := |s| - 3;
      FullDigits(s[..n]) + GroupDigits(s[n], s[n + 1], s[n + 2])
  }

  // A last group of one or two bytes is padded with zero bits.
  function TailDigits(s: seq<byte>): seq<digit>
    requires |s| < 3
  {
    match |s|
    case 0 => []
    case 1 => [Digit0(s[0]), Digit1(s[0], 0)]
    case 2 => [Digit0(s[0]), Digit1(s[0], s[1]), Digit2(s[1], 0)]
  }

  function Digits(s: seq<byte>): seq<digit> {
    var n := Whole3(|s|);
    FullDigits(s[..n]) + TailDigits(s[n..])
  }

  function Text(d: seq<digit>): (t: string)
    ensures |t| == |d|
  {
    seq(|d|, i requires 0 <= i < |d| => CharOf(d[i]))
  }

  function Padding(n: nat): string {
    match n % 4 case 0 => "" case 1 => "===" case 2 => "==" case 3 => "="
  }

  function Encoded(s: seq<byte>): string {
    Text(Digits(s)) + Padding(|Digits(s)|)
  }

  // The four digits of a group are the number that its three bytes are.
  lemma GroupValue(a: byte, b: byte, c: byte)
    ensures ((Digit0(a) * 64 + Digit1(a, b)) * 64 + Digit2(b, c)) * 64 + Digit3(c) == (a * 256 + b) * 256 + c
  {
  }

  // A last group of one or two bytes gives the first digits of the group that is filled up with
  // zeros, and the text is filled up to whole groups.
  lemma TailIsPrefix(s: seq<byte>)
    requires |s| < 3
    ensures s == [] ==> TailDigits(s) == []
    ensures |s| == 1 ==> TailDigits(s) == GroupDigits(s[0], 0, 0)[..2]
    ensures |s| == 2 ==> TailDigits(s) == GroupDigits(s[0], s[1], 0)[..3]
  {
  }

  lemma DigitsLength(s: seq<byte>)
    ensures var k, rest := |s| / 3, |s| % 3; |Digits(s)| == 4 * k + if rest == 0 then 0 else rest + 1
  {
    var n := Whole3(|s|);
    hide FullDigits, TailDigits;
    assert n == 3 * (|s| / 3);
    TailLength(s[n..]);
  }

  lemma EncodedLength(s: seq<byte>)
    ensures |Encoded(s)| == |s| / 3 * 4 + if |s| % 3 == 0 then 0 else 4
    ensures |s| % 3 != 0 ==> |Encoded(s)| - |Digits(s)| == 3 - |s| % 3
    ensures forall i | |Digits(s)| <= i < |Encoded(s)| :: Encoded(s)[i] == '='
  {
    DigitsLength(s);
    hide Digits, Text;
    var k, rest := |s| / 3, |s| % 3;
    AddMultiple(if rest == 0 then 0 else rest + 1, k, 4);
  }

  lemma TailLength(s: seq<byte>)
    requires |s| < 3
    ensures |TailDigits(s)| == if s == [] then 0 else |s| + 1
  {
  }

  // ---- The encoder ----

  // The digits emitted so far for the bytes of an unfinished group.
  function PartialDigits(s: seq<byte>): seq<digit>
    requires |s| < 3
  {
    match |s|
    case 0 => []
    case 1 => [Digit0(s[0])]
    case 2 => [Digit0(s[0]), Digit1(s[0], s[1])]
  }

  function Emitted(s: seq<byte>): seq<digit> {
    var n := Whole3(|s|);
    FullDigits(s[..n]) + PartialDigits(s[n..])
  }

  // Accumulator and bit count after the bytes of s: the bits not yet emitted are the low bits.
  predicate Pending(s: seq<byte>, val: nat, valb: int) {
    match |s| % 3
    case 0 => valb == -6
    case 1 => valb == -4 && val % 4 == s[|s| - 1] % 4
    case 2 => valb == -2 && val % 16 == s[|s| - 1] % 16
  }

  function Sixth(val: nat, shift: nat): digit
    requires shift <= 6
  {
    match shift
    case 0 => val % 64
    case 1 => val / 2 % 64
    case 2 => val / 4 % 64
    case 3 => val / 8 % 64
    case 4 => val / 16 % 64
    case 5 => val / 32 % 64
    case 6 => val / 64 % 64
  }

  function Shifted8(val: nat, c: byte): nat {
    (val * 256 + c) % INT_RANGE
  }

  // Only the low 24 bits of the accumulator survive the shift.
  lemma Shifted8Is(val: nat, c: byte)
    ensures Shifted8(val, c) == val % 0x100_0000 * 256 + c
  {
    var k, h := val / 0x100_0000, val % 0x100_0000;
    assert val * 256 + c == k * INT_RANGE + (h * 256 + c);
  }

  lemma LowBits(val: nat)
    ensures val % 0x100_0000 % 4 == val % 4 && val % 0x100_0000 % 16 == val % 16
  {
    var k, h := val / 0x100_0000, val % 0x100_0000;
    AddMultiple(h, k * 0x40_0000, 4);
    AddMultiple(h, k * 0x10_0000, 16);
  }

  lemma Bits0(h: nat, c: byte)
    ensures (h * 256 + c) % 4 == c % 4 && (h * 256 + c) % 16 == c % 16 && (h * 256 + c) % 64 == c % 64
  {
    AddMultiple(c, h * 64, 4);
    AddMultiple(c, h * 16, 16);
    AddMultiple(c, h * 4, 64);
  }

  lemma Bits4(h: nat, c: byte)
    ensures (h * 256 + c) / 4 % 64 == c / 4 && (h * 256 + c) / 16 % 64 == h % 4 * 16 + c / 16
  {
    AddMultiple(c, h * 64, 4);
    AddMultiple(c / 4, h, 64);
    AddMultiple(c, h * 16, 16);
    AddMultiple(h % 4 * 16 + c / 16, h / 4, 64);
  }

  lemma Bits6(h: nat, c: byte)
    ensures (h * 256 + c) / 64 % 64 == h % 16 * 4 + c / 64
  {
    AddMultiple(c, h * 4, 64);
    AddMultiple(h % 16 * 4 + c / 64, h / 16, 64);
  }

  // The digits read from the accumulator are those of the byte c and the byte a before it, when
  // the accumulator's low bits are those of a.
  lemma Shifted8Bits(val: nat, a: byte, c: byte)
    ensures var v := Shifted8(val, c);
      && v % 4 == c % 4 && v % 16 == c % 16
      && Sixth(v, 2) == Digit0(c)
      && (val % 4 == a % 4 ==> Sixth(v, 4) == Digit1(a, c))
      && (val % 16 == a % 16 ==> Sixth(v, 6) == Digit2(a, c))
      && Sixth(v, 0) == Digit3(c)
  {
    Shifted8Is(val, c);
    hide Shifted8;
    var h := val % 0x100_0000;
    LowBits(val);
    Bits0(h, c);
    Bits4(h, c);
    Bits6(h, c);
  }

  // What the byte c adds to the digits of the bytes before it.
  function NewDigits(s: seq<byte>, c: byte): seq<digit> {
    match |s| % 3
    case 0 => [Digit0(c)]
    case 1 => [Digit1(s[|s| - 1], c)]
    case 2 => [Digit2(s[|s| - 1], c), Digit3(c)]
  }

  lemma FullDigitsSnoc(head: seq<byte>, a: byte, b: byte, c: byte)
    requires |head| % 3 == 0
    ensures FullDigits(head + [a, b, c]) == FullDigits(head) + GroupDigits(a, b, c)
  {
    assert (head + [a, b, c])[..|head|] == head;
  }

  lemma EmittedStep(s: seq<byte>, c: byte)
    ensures Emitted(s + [c]) == Emitted(s) + NewDigits(s, c)
  {
    hide Digit0, Digit1, Digit2, Digit3, FullDigits, Emitted, Whole3;
    var n := Whole3(|s|);
    var full, tail := s[..n], s[n..];
    assert s == full + tail;
    EmittedOfParts(full, tail);
    if |tail| == 2 {
      FullDigitsSnoc(full, tail[0], tail[1], c);
      assert s + [c] == (full + [tail[0], tail[1], c]) + [];
      EmittedOfParts(full + [tail[0], tail[1], c], []);
    } else {
      assert s + [c] == full + (tail + [c]);
      EmittedOfParts(full, tail + [c]);
    }
  }

  lemma TextConcat(a: seq<digit>, b: seq<digit>)
    ensures Text(a + b) == Text(a) + Text(b)
  {
  }

  // The digits the inner loop still takes from the accumulator.
  function Rest(val: nat, valb: int): seq<digit>
    requires valb <= 6
    decreases valb + 6
  {
    if valb < 0 then [] else [Sixth(val, valb)] + Rest(val, valb - 6)
  }

  lemma ByteEmitted(s: seq<byte>, c: byte, val: nat, valb: int)
    requires Pending(s, val, valb)
    ensures valb + 8 <= 6
    ensures Emitted(s + [c]) == Emitted(s) + Rest(Shifted8(val, c), valb + 8)
    ensures Pending(s + [c], Shifted8(val, c), if valb == -2 then -6 else valb + 2)
  {
    hide Emitted, Shifted8, Sixth, Digit0, Digit1, Digit2, Digit3, Rest;
    EmittedStep(s, c);
    Shifted8Bits(val, if s == [] then 0 else s[|s| - 1], c);
    RestIs(Shifted8(val, c), valb + 8);
  }

  lemma RestIs(v: nat, valb: int)
    requires 0 <= valb <= 6
    ensures Rest(v, valb) == if valb == 6 then [Sixth(v, 6), Sixth(v, 0)] else [Sixth(v, valb)]
  {
    hide Sixth;
  }

  lemma EmittedNothing()
    ensures Emitted([]) == [] && Text([]) == ""
  {
  }

  lemma LastDigit(s: seq<byte>, val: nat, valb: int)
    requires Pending(s, val, valb)
    ensures valb <= -2
    ensures Digits(s) == Emitted(s) + if valb > -6 then [Sixth(Shifted8(val, 0), valb + 8)] else []
  {
    hide Shifted8, Sixth, Digit0, Digit1, Digit2, Digit3, FullDigits, Whole3;
    Shifted8Bits(val, if s == [] then 0 else s[|s| - 1], 0);
    var n := Whole3(|s|);
    assert |s[n..]| == |s| % 3;
  }

  lemma PaddingStep(n: nat)
    requires n % 4 != 0
    ensures Padding(n) == "=" + Padding(n + 1)
  {
  }

  // The encoder's 32-bit accumulator loses high bits, never the ones still to be emitted.
  method Encode(input: seq<byte>) returns (out: string)
    ensures out == Encoded(input)
  {
    hide Emitted, Shifted8, Sixth, CharOf, Text, Digits, Padding;
    out := "";
    var val, valb: int := 0, -6;
    var i := 0;
    EmittedNothing();
    while i < |input|
      invariant i <= |input| && Pending(input[..i], val, valb) && out == Text(Emitted(input[..i]))
    {
      var c := input[i];
      assert input[..i + 1] == input[..i] + [c];
      ByteEmitted(input[..i], c, val, valb);
      ghost var last := if valb == -2 then -6 else valb + 2;
      TextConcat(Emitted(input[..i]), Rest(Shifted8(val, c), valb + 8));
      val := Shifted8(val, c);
      valb := valb + 8;
      while valb >= 0
        invariant (valb == last || valb == last + 6 || valb == last + 12) && valb <= 6
        invariant out + Text(Rest(val, valb)) == Text(Emitted(input[..i + 1]))
        decreases valb
      {
        TextConcat([Sixth(val, valb)], Rest(val, valb - 6));
        out := out + Text([Sixth(val, valb)]);
        valb := valb - 6;
      }
      assert out + Text([]) == out by { EmittedNothing(); }
      i := i + 1;
    }
    assert input[..|input|] == input;
    LastDigit(input, val, valb);
    if valb > -6 {
      TextConcat(Emitted(input), [Sixth(Shifted8(val, 0), valb + 8)]);
      out := out + Text([Sixth(Shifted8(val, 0), valb + 8)]);
    }
    assert out == Text(Digits(input)) by { assert Emitted(input) + [] == Emitted(input); }
    ghost var digits := out;
    assert out + Padding(|out|) == Encoded(input);
    while |out| % 4 != 0
      invariant out + Padding(|out|) == digits + Padding(|digits|)
      decreases if |out| % 4 == 0 then 0 else 4 - |out| % 4
    {
      PaddingStep(|out|);
      assert out + ("=" + Padding(|out| + 1)) == (out + "=") + Padding(|out| + 1);
      out := out + "=";
    }
    NoPadding(|out|);
    assert out + "" == out;
  }

  lemma NoPadding(n: nat)
    requires n % 4 == 0
    ensures Padding(n) == ""
  {
  }

  // ---- The decoding: four digits are three bytes ----

  // The three bytes of a group, from the digits that hold their bits.
  function Byte0(a: nat, b: digit): byte
    requires a < 64
  { a * 4 + b / 16 }

  function Byte1(b: nat, c: digit): byte
    requires b < 64
  { b % 16 * 16 + c / 4 }

  function Byte2(c: nat, d: digit): byte
    requires c < 64
  { c % 4 * 64 + d }

  function GroupBytes(a: digit, b: digit, c: digit, d: digit): (g: seq<byte>)
    ensures |g| == 3
  {
    [Byte0(a, b), Byte1(b, c), Byte2(c, d)]
  }

  function FullBytes(d: seq<digit>): (s: seq<byte>)
    requires |d| % 4 == 0
    ensures |s| == |d| / 4 * 3
  {
    if d == [] then []
    else
      var n := |d| - 4;
      FullBytes(d[..n]) + GroupBytes(d[n], d[n + 1], d[n + 2], d[n + 3])
  }

  // An unfinished group gives the bytes whose bits are all there.
  function TailBytes(d: seq<digit>): seq<byte>
    requires |d| < 4
  {
    match |d|
    case 0 => []
    case 1 => []
    case 2 => [Byte0(d[0], d[1])]
    case 3 => [Byte0(d[0], d[1]), Byte1(d[1], d[2])]
  }

  function Bytes(d: seq<digit>): seq<byte> {
    var n := Whole4(|d|);
    FullBytes(d[..n]) + TailBytes(d[n..])
  }

  // The digits up to the first character outside the alphabet.
  function LeadingDigits(t: string): seq<digit> {
    if t == "" || DigitOf(t[0]) < 0 then [] else [DigitOf(t[0]) as digit] + LeadingDigits(t[1..])
  }

  function Decoded(t: string): seq<byte> {
    Bytes(LeadingDigits(t))
  }

  predicate Collected(d: seq<digit>, val: nat, valb: int) {
    match |d| % 4
    case 0 => valb == -8
    case 1 => valb == -2 && val % 64 == d[|d| - 1]
    case 2 => valb == -4 && val % 16 == d[|d| - 1] % 16
    case 3 => valb == -6 && val % 4 == d[|d| - 1] % 4
  }

  function Shifted6(val: nat, d: digit): nat {
    (val * 64 + d) % INT_RANGE
  }

  function Eighth(val: nat, shift: nat): byte
    requires shift <= 5
  {
    match shift
    case 0 => val % 256
    case 1 => val / 2 % 256
    case 2 => val / 4 % 256
    case 3 => val / 8 % 256
    case 4 => val / 16 % 256
    case 5 => val / 32 % 256
  }

  lemma Shifted6Is(val: nat, d: digit)
    ensures Shifted6(val, d) == val % 0x400_0000 * 64 + d
  {
    var k, h := val / 0x400_0000, val % 0x400_0000;
    assert val * 64 + d == k * INT_RANGE + (h * 64 + d);
  }

  lemma LowBits6(val: nat)
    ensures val % 0x400_0000 % 4 == val % 4 && val % 0x400_0000 % 16 == val % 16 && val % 0x400_0000 % 64 == val % 64
  {
    var k, h := val / 0x400_0000, val % 0x400_0000;
    AddMultiple(h, k * 0x100_0000, 4);
    AddMultiple(h, k * 0x40_0000, 16);
    AddMultiple(h, k * 0x10_0000, 64);
  }

  lemma Bits8(h: nat, d: digit)
    ensures (h * 64 + d) % 4 == d % 4 && (h * 64 + d) % 16 == d % 16 && (h * 64 + d) % 64 == d
    ensures (h * 64 + d) % 256 == h % 4 * 64 + d
  {
    AddMultiple(d, h * 16, 4);
    AddMultiple(d, h * 4, 16);
    AddMultiple(d, h, 64);
    AddMultiple(h % 4 * 64 + d, h / 4, 256);
  }

  lemma Bits8Shifted(h: nat, d: digit)
    ensures (h * 64 + d) / 16 % 256 == h % 64 * 4 + d / 16 && (h * 64 + d) / 4 % 256 == h % 16 * 16 + d / 4
  {
    AddMultiple(d, h * 4, 16);
    AddMultiple(h % 64 * 4 + d / 16, h / 64, 256);
    AddMultiple(d, h * 16, 4);
    AddMultiple(h % 16 * 16 + d / 4, h / 16, 256);
  }

  lemma Shifted6Bits(val: nat, a: digit, d: digit)
    ensures var v := Shifted6(val, d);
      && v % 64 == d && v % 16 == d % 16 && v % 4 == d % 4
      && (val % 64 == a ==> Eighth(v, 4) == Byte0(a, d))
      && (val % 16 == a % 16 ==> Eighth(v, 2) == Byte1(a, d))
      && (val % 4 == a % 4 ==> Eighth(v, 0) == Byte2(a, d))
  {
    Shifted6Is(val, d);
    hide Shifted6;
    var h := val % 0x400_0000;
    LowBits6(val);
    Bits8(h, d);
    Bits8Shifted(h, d);
  }

  // What the digit x adds to the bytes of the digits before it.
  function NewBytes(d: seq<digit>, x: digit): seq<byte> {
    match |d| % 4
    case 0 => []
    case 1 => [Byte0(d[|d| - 1], x)]
    case 2 => [Byte1(d[|d| - 1], x)]
    case 3 => [Byte2(d[|d| - 1], x)]
  }

  lemma BytesStep(d: seq<digit>, x: digit)
    ensures Bytes(d + [x]) == Bytes(d) + NewBytes(d, x)
  {
    hide Byte0, Byte1, Byte2, FullBytes, Bytes, Whole4;
    var n := Whole4(|d|);
    var full, tail := d[..n], d[n..];
    assert d == full + tail;
    BytesOfParts(full, tail);
    if |tail| == 3 {
      FullBytesSnoc(full, tail + [x]);
      assert d + [x] == (full + (tail + [x])) + [];
      BytesOfParts(full + (tail + [x]), []);
    } else {
      assert d + [x] == full + (tail + [x]);
      BytesOfParts(full, tail + [x]);
    }
  }

  lemma DigitCollected(d: seq<digit>, x: digit, val: nat, valb: int)
    requires Collected(d, val, valb)
    ensures var v, b := Shifted6(val, x), valb + 6;
      && b <= 5
      && Bytes(d + [x]) == Bytes(d) + (if b >= 0 then [Eighth(v, b)] else [])
      && Collected(d + [x], v, if b >= 0 then b - 8 else b)
  {
    hide Bytes, Shifted6, Eighth, Byte0, Byte1, Byte2;
    BytesStep(d, x);
    Shifted6Bits(val, if d == [] then 0 else d[|d| - 1], x);
  }

  // The table of the digits of all characters.
  method DigitTable() returns (table: seq<int>)
    ensures |table| == 256 && forall c: char | c as int < 256 :: table[c as int] == DigitOf(c)
  {
    table := seq(256, _ => -1);
    var i := 0;
    while i < 64
      invariant i <= 64 && |table| == 256
      invariant forall c: char | c as int < 256 :: table[c as int] == if DigitOf(c) < i then DigitOf(c) else -1
    {
      AlphabetDigits(i);
      table := table[CharOf(i) as int := i];
      i := i + 1;
    }
  }

  method Decode(input: string) returns (out: seq<byte>)
    requires forall c <- input :: c as int < 256
    ensures out == Decoded(input)
  {
    hide Bytes, Shifted6, Eighth, DigitOf, LeadingDigits, Collected;
    var table := DigitTable();
    out := [];
    var val, valb: int := 0, -8;
    ghost var digits: seq<digit> := [];
    NoDigits();
    var i := 0;
    assert input[0..] == input;
    while i < |input|
      invariant i <= |input| && Collected(digits, val, valb) && out == Bytes(digits)
      invariant digits + LeadingDigits(input[i..]) == LeadingDigits(input)
    {
      var c := input[i];
      assert c in input;
      DigitIsInAlphabet(c);
      LeadingStep(input, i);
      if table[c as int] == -1 {
        break;
      }
      var d: digit := table[c as int];
      DigitCollected(digits, d, val, valb);
      val := Shifted6(val, d);
      valb := valb + 6;
      if valb >= 0 {
        out := out + [Eighth(val, valb)];
        valb := valb - 8;
      }
      assert digits + ([d] + LeadingDigits(input[i + 1..])) == (digits + [d]) + LeadingDigits(input[i + 1..]);
      digits := digits + [d];
      i := i + 1;
    }
    assert i == |input| ==> input[i..] == "";
    assert digits + [] == digits;
  }

  lemma NoDigits()
    ensures Bytes([]) == [] && LeadingDigits("") == [] && Collected([], 0, -8)
  {
  }

  lemma LeadingStep(input: string, i: nat)
    requires i < |input|
    ensures LeadingDigits(input[i..])
      == if DigitOf(input[i]) < 0 then [] else [DigitOf(input[i]) as digit] + LeadingDigits(input[i + 1..])
  {
    hide DigitOf;
    assert input[i..][0] == input[i] && input[i..][1..] == input[i + 1..];
  }

  // ---- The round trip ----

  lemma {:induction false} LeadingOfText(d: seq<digit>, rest: string)
    requires rest == "" || DigitOf(rest[0]) < 0
    ensures LeadingDigits(Text(d) + rest) == d
    decreases |d|
  {
    hide DigitOf, CharOf;
    if d == [] {
      assert Text(d) + rest == rest;
    } else {
      var t := Text(d) + rest;
      LeadingOfText(d[1..], rest);
      AlphabetDigits(d[0]);
      assert t[0] == CharOf(d[0]) && t[1..] == Text(d[1..]) + rest;
    }
  }

  lemma GroupRoundTrip(a: byte, b: byte, c: byte)
    ensures var d := GroupDigits(a, b, c); GroupBytes(d[0], d[1], d[2], d[3]) == [a, b, c]
  {
    ByteRoundTrip0(a, b);
    ByteRoundTrip1(a, b, c);
    ByteRoundTrip2(b, c);
    hide Digit0, Digit1, Digit2, Digit3, Byte0, Byte1, Byte2;
  }

  lemma ByteRoundTrip0(a: byte, b: byte)
    ensures Byte0(Digit0(a), Digit1(a, b)) == a
  {
    AddMultiple(b / 16, a % 4, 16);
  }

  lemma ByteRoundTrip1(a: byte, b: byte, c: byte)
    ensures Byte1(Digit1(a, b), Digit2(b, c)) == b
  {
    AddMultiple(b / 16, a % 4, 16);
    AddMultiple(c / 64, b % 16, 4);
    assert Digit1(a, b) % 16 == b / 16 && Digit2(b, c) / 4 == b % 16;
    hide Digit1, Digit2;
  }

  lemma ByteRoundTrip2(b: byte, c: byte)
    ensures Byte2(Digit2(b, c), Digit3(c)) == c
  {
    AddMultiple(c / 64, b % 16, 4);
  }

  lemma OneMoreGroup(head: seq<byte>, a: byte, b: byte, c: byte)
    requires |head| % 3 == 0 && FullBytes(FullDigits(head)) == head
    ensures FullBytes(FullDigits(head + [a, b, c])) == head + [a, b, c]
  {
    hide GroupDigits, GroupBytes, FullDigits, FullBytes;
    GroupRoundTrip(a, b, c);
    FullDigitsSnoc(head, a, b, c);
    FullBytesSnoc(FullDigits(head), GroupDigits(a, b, c));
  }

  lemma {:induction false} FullRoundTrip(s: seq<byte>)
    requires |s| % 3 == 0
    ensures FullBytes(FullDigits(s)) == s
    decreases |s|
  {
    if s != [] {
      hide FullDigits, FullBytes;
      var n := |s| - 3;
      FullRoundTrip(s[..n]);
      assert s == s[..n] + [s[n], s[n + 1], s[n + 2]];
      OneMoreGroup(s[..n], s[n], s[n + 1], s[n + 2]);
    }
  }

  lemma FullBytesSnoc(head: seq<digit>, g: seq<digit>)
    requires |head| % 4 == 0 && |g| == 4
    ensures FullBytes(head + g) == FullBytes(head) + GroupBytes(g[0], g[1], g[2], g[3])
  {
    assert (head + g)[..|head|] == head;
  }

  lemma TailRoundTrip(s: seq<byte>)
    requires |s| < 3
    ensures |TailDigits(s)| < 4 && TailBytes(TailDigits(s)) == s
  {
    if |s| == 1 {
      ByteRoundTrip0(s[0], 0);
    } else if |s| == 2 {
      ByteRoundTrip0(s[0], s[1]);
      ByteRoundTrip1(s[0], s[1], 0);
    }
    hide Digit0, Digit1, Digit2, Digit3, Byte0, Byte1, Byte2;
  }

  lemma DigitsRoundTrip(s: seq<byte>)
    ensures Bytes(Digits(s)) == s
  {
    hide FullDigits, TailDigits, FullBytes, TailBytes, Whole3, Bytes;
    var n := Whole3(|s|);
    var full, tail := FullDigits(s[..n]), TailDigits(s[n..]);
    TailRoundTrip(s[n..]);
    FullRoundTrip(s[..n]);
    BytesOfParts(full, tail);
    assert s == s[..n] + s[n..];
  }

  lemma BytesOfParts(full: seq<digit>, tail: seq<digit>)
    requires |full| % 4 == 0 && |tail| < 4
    ensures Bytes(full + tail) == FullBytes(full) + TailBytes(tail)
  {
    hide FullBytes, TailBytes, Whole4;
    var d := full + tail;
    Whole4Is(|d|, |full|);
    assert d[..|full|] == full && d[|full|..] == tail;
  }

  lemma EmittedOfParts(full: seq<byte>, tail: seq<byte>)
    requires |full| % 3 == 0 && |tail| < 3
    ensures Emitted(full + tail) == FullDigits(full) + PartialDigits(tail)
  {
    hide FullDigits, PartialDigits, Whole3;
    var s := full + tail;
    Whole3Is(|s|, |full|);
    assert s[..|full|] == full && s[|full|..] == tail;
  }

  // Decoding the encoding of any bytes gives them back.
  lemma RoundTrip(s: seq<byte>)
    ensures Decoded(Encoded(s)) == s
  {
    hide Digits, Bytes, Text;
    DigitsRoundTrip(s);
    LeadingOfText(Digits(s), Padding(|Digits(s)|));
  }
}
