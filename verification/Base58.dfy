/** Base58 strings and checked Base58 with this network's "SL" prefix (src/base58.cpp). */
module Base58 {
  import opened Wrappers
  import opened Powers
  import opened Digits

  /** The alphabet. */
  function Letter(d: nat): char {
    match d
    case 0 => '1' case 1 => '2' case 2 => '3' case 3 => '4' case 4 => '5' case 5 => '6' case 6 => '7'
    case 7 => '8' case 8 => '9' case 9 => 'A' case 10 => 'B' case 11 => 'C' case 12 => 'D' case 13 => 'E'
    case 14 => 'F' case 15 => 'G' case 16 => 'H' case 17 => 'J' case 18 => 'K' case 19 => 'L' case 20 => 'M'
    case 21 => 'N' case 22 => 'P' case 23 => 'Q' case 24 => 'R' case 25 => 'S' case 26 => 'T' case 27 => 'U'
    case 28 => 'V' case 29 => 'W' case 30 => 'X' case 31 => 'Y' case 32 => 'Z' case 33 => 'a' case 34 => 'b'
    case 35 => 'c' case 36 => 'd' case 37 => 'e' case 38 => 'f' case 39 => 'g' case 40 => 'h' case 41 => 'i'
    case 42 => 'j' case 43 => 'k' case 44 => 'm' case 45 => 'n' case 46 => 'o' case 47 => 'p' case 48 => 'q'
    case 49 => 'r' case 50 => 's' case 51 => 't' case 52 => 'u' case 53 => 'v' case 54 => 'w' case 55 => 'x'
    case 56 => 'y' case _ => 'z'
  }

  /** The reverse table: the digit of a character, or -1. */
  function Index(c: char): int {
    match c
    case '1' => 0 case '2' => 1 case '3' => 2 case '4' => 3 case '5' => 4 case '6' => 5 case '7' => 6
    case '8' => 7 case '9' => 8 case 'A' => 9 case 'B' => 10 case 'C' => 11 case 'D' => 12 case 'E' => 13
    case 'F' => 14 case 'G' => 15 case 'H' => 16 case 'J' => 17 case 'K' => 18 case 'L' => 19 case 'M' => 20
    case 'N' => 21 case 'P' => 22 case 'Q' => 23 case 'R' => 24 case 'S' => 25 case 'T' => 26 case 'U' => 27
    case 'V' => 28 case 'W' => 29 case 'X' => 30 case 'Y' => 31 case 'Z' => 32 case 'a' => 33 case 'b' => 34
    case 'c' => 35 case 'd' => 36 case 'e' => 37 case 'f' => 38 case 'g' => 39 case 'h' => 40 case 'i' => 41
    case 'j' => 42 case 'k' => 43 case 'm' => 44 case 'n' => 45 case 'o' => 46 case 'p' => 47 case 'q' => 48
    case 'r' => 49 case 's' => 50 case 't' => 51 case 'u' => 52 case 'v' => 53 case 'w' => 54 case 'x' => 55
    case 'y' => 56 case 'z' => 57 case _ => -1
  }

  predicate IsSpace(c: char)
    ensures IsSpace(c) <==> c as int in {9, 10, 11, 12, 13, 32}
  {
    c == ' ' || '\t' <= c <= '\r'
  }

  lemma LetterReads(d: nat)
    requires d < 58
    ensures Index(Letter(d)) == d
  {
  }

  lemma LetterPlain(d: nat)
    ensures '1' <= Letter(d) <= 'z'
  {
  }

  lemma Alphabet(d: nat)
    requires d < 58
    ensures Letter(d) == if d < 33 then "123456789ABCDEFGHJKLMNPQRSTUVWXYZ"[d] else "abcdefghijkmnopqrstuvwxyz"[d - 33]
  {
  }

  lemma LetterIndex(d: nat)
    requires d < 58
    ensures Index(Letter(d)) == d && !IsSpace(Letter(d)) && (Letter(d) == '1' <==> d == 0)
  {
    hide Letter;
    LetterReads(d);
    LetterPlain(d);
  }

  lemma IndexRange(c: char)
    ensures -1 <= Index(c) < 58
  {
  }

  // ---- one digit more ----

  /**
   The buffer times a plus a digit, in base b, from the back; the carry that is left is zero as long as the result fits.
   */
  method MulAdd(buf: array<nat>, length: nat, digit: nat, a: nat, b: nat) returns (length': nat)
    requires b > 1 && a > 0 && length <= buf.Length && InBase(buf[..], b)
             && forall i | 0 <= i < buf.Length - length :: buf[i] == 0
    requires Value(buf[..], b) * a + digit < Pow(b, buf.Length)
    modifies buf
    ensures length' <= buf.Length && InBase(buf[..], b) && Value(buf[..], b) == old(Value(buf[..], b)) * a + digit
    ensures forall i | 0 <= i < buf.Length - length' :: buf[i] == 0
  {
    hide Value, Pow, Plus, Quotient, Remainder;
    ghost var was := buf[..];
    var size := buf.Length;
    var carry: nat, i := digit, 0;
    TailStart(was, digit, a, b);
    while (carry != 0 || i < length) && i < size
      invariant i <= size && buf[..size - i] == was[..size - i] && InBase(buf[..], b)
      invariant Value(buf[size - i..], b) + carry * Pow(b, i) == Value(was[size - i..], b) * a + digit
      decreases size - i
    {
      var at := size - 1 - i;
      TailStep(was, buf[..], i, carry, digit, a, b);
      ghost var now := buf[..];
      carry := Plus(carry, a, buf[at]);
      buf[at] := Remainder(carry, b);
      assert buf[..] == now[at := Remainder(carry, b)];
      assert buf[at..] == [Remainder(carry, b)] + now[at + 1..];
      carry := Quotient(carry, b);
      i := i + 1;
    }
    TailEnd(was, buf[..], i, carry, digit, a, b);
    assert carry == 0;
    return i;
  }

  function Plus(c: nat, a: nat, x: nat): nat { c + a * x }

  function Remainder(c: nat, b: nat): nat
    requires b > 0
  {
    c % b
  }

  lemma TailStart(was: seq<nat>, digit: nat, a: nat, b: nat)
    ensures Value(was[|was|..], b) + digit * Pow(b, 0) == Value(was[|was|..], b) * a + digit
  {
    assert was[|was|..] == [];
  }

  /** One more digit at the front of the tail. */
  lemma TailStep(was: seq<nat>, now: seq<nat>, i: nat, carry: nat, digit: nat, a: nat, b: nat)
    requires b > 1 && i < |was| == |now| && now[..|now| - i] == was[..|was| - i]
    requires Value(now[|now| - i..], b) + carry * Pow(b, i) == Value(was[|was| - i..], b) * a + digit
    ensures var at := |now| - 1 - i;
            var c := Plus(carry, a, now[at]);
            && Remainder(c, b) < b
            && Value([Remainder(c, b)] + now[at + 1..], b) + Quotient(c, b) * Pow(b, i + 1) ==
               Value(was[at..], b) * a + digit
  {
    var at := |now| - 1 - i;
    var x := now[at];
    assert now[..|now| - i][at] == was[..|was| - i][at];
    var c := carry + a * x;
    ValueFront(c % b, now[at + 1..], b);
    assert was[at..] == [x] + was[at + 1..];
    ValueFront(x, was[at + 1..], b);
    CarryAlgebra(Value(now[at + 1..], b), carry, x, a, b, Pow(b, i), Value(was[at + 1..], b), digit);
  }

  lemma ValueOne(x: nat, b: nat)
    ensures Value([x], b) == x
  {
    assert [x][..0] == [];
  }

  lemma ValueFront(x: nat, s: seq<nat>, b: nat)
    ensures Value([x] + s, b) == x * Pow(b, |s|) + Value(s, b)
  {
    hide Value, Pow;
    ValueJoin([x], s, b);
    ValueOne(x, b);
  }

  lemma CarryAlgebra(v: nat, carry: nat, x: nat, a: nat, b: nat, p: nat, w: nat, digit: nat)
    requires b > 0 && v + carry * p == w * a + digit
    ensures var c := carry + a * x; (c % b * p + v) + Quotient(c, b) * (b * p) == (x * p + w) * a + digit
  {
    var c := carry + a * x;
    var q, r := c / b, c % b;
    assert c == q * b + r;
    assert c * p == q * (b * p) + r * p;
    assert c * p == carry * p + a * x * p;
    assert (x * p + w) * a == x * p * a + w * a;
    assert x * p * a == a * x * p;
  }

  /** Nothing is carried out of the buffer, and what lies before the tail is zero. */
  lemma TailEnd(was: seq<nat>, now: seq<nat>, i: nat, carry: nat, digit: nat, a: nat, b: nat)
    requires b > 1 && i <= |was| == |now| && now[..|now| - i] == was[..|was| - i]
    requires Value(now[|now| - i..], b) + carry * Pow(b, i) == Value(was[|was| - i..], b) * a + digit
    requires Value(was, b) * a + digit < Pow(b, |was|)
             && (i == |was| || (carry == 0 && forall j | 0 <= j < |was| - i :: was[j] == 0))
    ensures carry == 0 && Value(now, b) == Value(was, b) * a + digit
  {
    hide Value, Pow;
    if i == |was| {
      assert now[0..] == now && was[0..] == was;
      if carry > 0 {
        Scale(1, carry, Pow(b, i));
      }
    } else {
      ZerosBefore(was, i, b);
      ZerosBefore(now, i, b);
    }
  }

  lemma ZerosBefore(s: seq<nat>, i: nat, b: nat)
    requires i <= |s| && forall j | 0 <= j < |s| - i :: s[j] == 0
    ensures Value(s, b) == Value(s[|s| - i..], b)
  {
    hide Value, Pow;
    var k := |s| - i;
    assert s == s[..k] + s[k..];
    ValueJoin(s[..k], s[k..], b);
    ValueZeros(s[..k], b);
  }

  // ---- the size estimates ----

  /** 138/100 of the bytes and one more are enough base-58 digits. */
  lemma EncodeSize(n: nat)
    ensures Pow(256, n) <= Pow(58, n * 138 / 100 + 1)
  {
    hide Pow;
    ElevenForEight();
    Fits(256, 58, 11, 8, n, n * 138 / 100 + 1);
  }

  lemma ElevenForEight()
    ensures Pow(256, 8) <= Pow(58, 11)
  {
    PowSmall(256);
    PowSmall(58);
    PowAdd(256, 4, 4);
    PowAdd(58, 4, 4);
    PowAdd(58, 8, 3);
  }

  lemma PowSmall(b: nat)
    ensures Pow(b, 1) == b && Pow(b, 2) == b * b && Pow(b, 3) == b * b * b && Pow(b, 4) == b * b * (b * b)
  {
    assert Pow(b, 0) == 1;
    PowAdd(b, 1, 1);
    PowAdd(b, 2, 1);
    PowAdd(b, 2, 2);
  }

  /** 733/1000 of the digits and one more are enough bytes. */
  lemma DecodeSize(n: nat)
    ensures Pow(58, n) <= Pow(256, n * 733 / 1000 + 1)
  {
    hide Pow;
    SeventyOneIn52();
    Fits(58, 256, 52, 71, n, n * 733 / 1000 + 1);
  }

  lemma SeventyOneIn52()
    ensures Pow(58, 71) <= Pow(256, 52)
  {
    hide Pow;
    PowSmall(58);
    PowAdd(58, 4, 4);
    PowAdd(58, 8, 8);
    PowAdd(58, 16, 16);
    PowAdd(58, 32, 32);
    PowAdd(58, 64, 4);
    PowAdd(58, 68, 3);
    PowSmall(256);
    PowAdd(256, 4, 4);
    PowAdd(256, 8, 8);
    PowAdd(256, 16, 16);
    PowAdd(256, 32, 16);
    PowAdd(256, 48, 4);
  }

  // ---- encoding ----

  ghost predicate Bytes(s: seq<nat>) { InBase(s, 256) }

  /** The number of zeros in front. */
  ghost function Zeros(s: seq<nat>): (z: nat)
    ensures z <= |s| && (forall i | 0 <= i < z :: s[i] == 0) && (z < |s| ==> s[z] != 0)
  {
    if s == [] || s[0] != 0 then 0 else 1 + Zeros(s[1..])
  }

  lemma {:induction false} ZerosAre(s: seq<nat>, z: nat)
    requires z <= |s| && (forall i | 0 <= i < z :: s[i] == 0) && (z < |s| ==> s[z] != 0)
    ensures Zeros(s) == z
  {
    if z > 0 {
      ZerosAre(s[1..], z - 1);
    }
  }

  ghost function Letters(d: seq<nat>): string { seq(|d|, i requires 0 <= i < |d| => Letter(d[i])) }

  function Ones(n: nat): string { seq(n, _ => '1') }

  /** The string stands for the bytes: a one for each leading zero, then the number's digits without leading zeros. */
  ghost predicate Encodes(s: string, bytes: seq<nat>, d: seq<nat>) {
    InBase(d, 58) && Minimal(d) && Value(d, 58) == Value(bytes, 256) && s == Ones(Zeros(bytes)) + Letters(d)
  }

  /** Converts digits of base a to base b in a buffer of a size that is enough; leading zeros are dropped. */
  method Convert(digits: seq<nat>, a: nat, b: nat, size: nat) returns (r: seq<nat>)
    requires a > 1 && b > 1 && InBase(digits, a) && Pow(a, |digits|) <= Pow(b, size)
    ensures InBase(r, b) && Minimal(r) && Value(r, b) == Value(digits, a)
  {
    hide Value, Pow;
    var buf := new nat[size](_ => 0);
    var length: nat := 0;
    StartZero(buf[..], digits, a, b);
    for k := 0 to |digits|
      invariant length <= size && InBase(buf[..], b) && Value(buf[..], b) == Value(digits[..k], a)
      invariant forall i | 0 <= i < size - length :: buf[i] == 0
    {
      PrefixFits(digits, k, a, b, size);
      length := MulAdd(buf, length, digits[k], a, b);
    }
    assert digits[..|digits|] == digits;
    var at := size - length;
    while at < size && buf[at] == 0
      invariant at <= size && forall i | 0 <= i < at :: buf[i] == 0
    {
      at := at + 1;
    }
    r := buf[at..];
    ZerosBefore(buf[..], size - at, b);
    assert buf[..][at..] == r;
  }

  lemma StartZero(buf: seq<nat>, digits: seq<nat>, a: nat, b: nat)
    requires forall i | 0 <= i < |buf| :: buf[i] == 0
    ensures Value(buf, b) == 0 == Value(digits[..0], a)
  {
    ValueZeros(buf, b);
  }

  /** The part of the digits converted next still fits. */
  lemma PrefixFits(digits: seq<nat>, k: nat, a: nat, b: nat, size: nat)
    requires a > 1 && k < |digits| && InBase(digits, a) && Pow(a, |digits|) <= Pow(b, size)
    ensures Value(digits[..k + 1], a) == Value(digits[..k], a) * a + digits[k] < Pow(b, size)
  {
    hide Value, Pow;
    assert digits[..k + 1] == digits[..k] + [digits[k]];
    ValueNext(digits[..k], digits[k], a);
    ValueBound(digits[..k + 1], a);
    PowMono(a, k + 1, |digits|);
  }

  method EncodeBase58(bytes: seq<nat>) returns (s: string, ghost d: seq<nat>)
    requires Bytes(bytes)
    ensures Encodes(s, bytes, d)
  {
    hide Value, Pow, Letter;
    var zeroes := 0;
    while zeroes < |bytes| && bytes[zeroes] == 0
      invariant zeroes <= |bytes| && forall i | 0 <= i < zeroes :: bytes[i] == 0
    {
      zeroes := zeroes + 1;
    }
    ZerosAre(bytes, zeroes);
    var rest := bytes[zeroes..];
    EncodeSize(|rest|);
    var digits := Convert(rest, 256, 58, |rest| * 138 / 100 + 1);
    ZerosBefore(bytes, |rest|, 256);
    d := digits;
    s := Ones(zeroes);
    for i := 0 to |digits|
      invariant s == Ones(zeroes) + Letters(digits[..i])
    {
      assert Letters(digits[..i + 1]) == Letters(digits[..i]) + [Letter(digits[i])];
      s := s + [Letter(digits[i])];
    }
    assert digits[..|digits|] == digits;
  }

  // ---- decoding ----

  datatype Kind = Spaces | LeadingOnes | NoSpaces

  predicate Of(kind: Kind, c: char) {
    match kind
    case Spaces => IsSpace(c)
    case LeadingOnes => c == '1'
    case NoSpaces => !IsSpace(c)
  }

  /** Where a run of characters of a kind that starts at i ends. */
  ghost function RunEnd(s: string, i: nat, kind: Kind): (j: nat)
    requires i <= |s|
    ensures i <= j <= |s|
    decreases |s| - i
  {
    if i < |s| && Of(kind, s[i]) then RunEnd(s, i + 1, kind) else i
  }

  method SkipRun(s: string, i: nat, kind: Kind) returns (j: nat)
    requires i <= |s|
    ensures j == RunEnd(s, i, kind)
  {
    j := i;
    while j < |s| && Of(kind, s[j])
      invariant i <= j <= |s| && RunEnd(s, i, kind) == RunEnd(s, j, kind)
    {
      j := j + 1;
    }
  }

  /** The characters from i to j as digits. */
  ghost function Indexes(s: string, i: nat, j: nat): seq<int>
    requires i <= j <= |s|
  {
    seq(j - i, k requires 0 <= k < j - i => Index(s[i + k]))
  }

  /** Spaces, then ones, then base-58 characters, then spaces only. */
  ghost predicate Readable(s: string) {
    var i := RunEnd(s, RunEnd(s, 0, Spaces), LeadingOnes);
    var j := RunEnd(s, i, NoSpaces);
    RunEnd(s, j, Spaces) == |s| && forall k | i <= k < j :: Index(s[k]) != -1
  }

  /** The bytes of a readable string: a zero for each leading one, then the number's bytes without leading zeros. */
  ghost predicate Decodes(s: string, bytes: seq<nat>) {
    var z := RunEnd(s, 0, Spaces);
    var i := RunEnd(s, z, LeadingOnes);
    var j := RunEnd(s, i, NoSpaces);
    var digits := Indexes(s, i, j);
    && Bytes(bytes) && Zeros(bytes) == i - z && (forall k | 0 <= k < |digits| :: digits[k] >= 0)
    && Value(bytes, 256) == Value(digits, 58)
  }

  /** A C string: it has no null character. */
  method DecodeBase58(s: string) returns (r: Option<seq<nat>>)
    requires '\0' !in s
    ensures r.Some? <==> Readable(s)
    ensures r.Some? ==> Decodes(s, r.value)
  {
    hide Value, Pow, Index, IsSpace, RunEnd, Zeros;
    var start := SkipRun(s, 0, Spaces);
    var i := SkipRun(s, start, LeadingOnes);
    var zeroes := i - start;
    var size := (|s| - i) * 733 / 1000 + 1;
    var j := SkipRun(s, i, NoSpaces);
    var digits: seq<nat> := [];
    for k := i to j
      invariant |digits| == k - i && InBase(digits, 58)
      invariant forall m | i <= m < k :: Index(s[m]) != -1 && digits[m - i] == Index(s[m])
    {
      IndexRange(s[k]);
      if Index(s[k]) == -1 {
        return None;
      }
      digits := digits + [Index(s[k])];
    }
    var end := SkipRun(s, j, Spaces);
    if end != |s| {
      return None;
    }
    DecodeSize(|s| - i);
    PowMono(58, j - i, |s| - i);
    var bytes := Convert(digits, 58, 256, size);
    assert digits == Indexes(s, i, j);
    ZerosThen(zeroes, bytes);
    return Some(seq(zeroes, _ => 0) + bytes);
  }

  lemma ZerosThen(z: nat, bytes: seq<nat>)
    requires Minimal(bytes)
    ensures Zeros(seq(z, _ => 0) + bytes) == z && Value(seq(z, _ => 0) + bytes, 256) == Value(bytes, 256)
  {
    hide Value, Pow;
    var all := seq(z, _ => 0) + bytes;
    ZerosAre(all, z);
    ZerosBefore(all, |bytes|, 256);
    assert all[z..] == bytes;
  }

  // ---- round trip ----

  lemma {:induction false} RunTo(s: string, i: nat, j: nat, kind: Kind)
    requires i <= j <= |s| && (forall k | i <= k < j :: Of(kind, s[k])) && (j < |s| ==> !Of(kind, s[j]))
    ensures RunEnd(s, i, kind) == j
    decreases j - i
  {
    if i < j {
      RunTo(s, i + 1, j, kind);
    }
  }

  /** What encodes bytes is readable, and nothing but those bytes decodes from it. */
  lemma EncodedDecodes(s: string, bytes: seq<nat>, d: seq<nat>, back: seq<nat>)
    requires Bytes(bytes) && Encodes(s, bytes, d)
    ensures Readable(s) && (Decodes(s, back) ==> back == bytes)
  {
    hide Value, Pow, Letter, Index, RunEnd, IsSpace;
    var z := Zeros(bytes);
    forall k | 0 <= k < |s|
      ensures !IsSpace(s[k]) && (k < z ==> s[k] == '1')
              && (k >= z ==> s[k] == Letter(d[k - z]) && Index(s[k]) == d[k - z])
    {
      if k >= z {
        LetterIndex(d[k - z]);
      } else {
        OneIsNoSpace();
      }
    }
    if z < |s| {
      LetterIndex(d[0]);
    }
    RunTo(s, 0, 0, Spaces);
    RunTo(s, 0, z, LeadingOnes);
    RunTo(s, z, |s|, NoSpaces);
    RunTo(s, |s|, |s|, Spaces);
    assert Indexes(s, z, |s|) == d;
    if Decodes(s, back) {
      SameBytes(bytes, back);
    }
  }

  lemma OneIsNoSpace()
    ensures !IsSpace('1')
  {
  }

  lemma SameBytes(a: seq<nat>, b: seq<nat>)
    requires Bytes(a) && Bytes(b) && Zeros(a) == Zeros(b) && Value(a, 256) == Value(b, 256)
    ensures a == b
  {
    hide Value, Pow;
    var z := Zeros(a);
    ZerosBefore(a, |a| - z, 256);
    ZerosBefore(b, |b| - z, 256);
    MinimalUnique(a[z..], b[z..], 256);
    assert a == a[..z] + a[z..] && b == b[..z] + b[z..];
    assert a[..z] == b[..z];
  }

  method RoundTrip(bytes: seq<nat>) returns (r: Option<seq<nat>>)
    requires Bytes(bytes)
    ensures r == Some(bytes)
  {
    hide Decodes, Readable, Value, Letter;
    ghost var d;
    var s;
    s, d := EncodeBase58(bytes);
    assert '\0' !in s by {
      assert ("SL" + s)[2..] == s;
      NoNull("SL" + s, bytes, d);
      assert forall i | 0 <= i < |s| :: s[i] == ("SL" + s)[i + 2];
    }
    r := DecodeBase58(s);
    EncodedDecodes(s, bytes, d, if r.Some? then r.value else []);
  }

  // ---- checked Base58 ----

  /** The first four bytes of the hash of the data. */
  ghost predicate Checks(check: seq<nat> -> seq<nat>) { forall p :: |check(p)| == 4 && Bytes(check(p)) }

  method EncodeBase58Check(payload: seq<nat>, check: seq<nat> -> seq<nat>) returns (s: string, ghost d: seq<nat>)
    requires Bytes(payload) && Checks(check)
    ensures |s| >= 2 && s[..2] == "SL" && Encodes(s[2..], payload + check(payload), d)
  {
    hide Encodes;
    var body;
    body, d := EncodeBase58(payload + check(payload));
    s := "SL" + body;
    assert s[2..] == body;
  }

  /** Strings of 36 characters lose their first two; the rest must decode to data and its check. */
  method DecodeBase58Check(s: string, check: seq<nat> -> seq<nat>) returns (r: Option<seq<nat>>)
    requires '\0' !in s && Checks(check)
    ensures var body := if |s| == 36 then s[2..] else s;
            && (r.Some? ==> Readable(body) && Decodes(body, r.value + check(r.value)))
            && (r.None? && Readable(body) ==>
                  exists v :: Decodes(body, v) && (|v| < 4 || check(v[..|v| - 4]) != v[|v| - 4..]))
  {
    hide Decodes, Readable;
    var body := if |s| == 36 then s[2..] else s;
    var decoded := DecodeBase58(body);
    if decoded.None? || |decoded.value| < 4 {
      return None;
    }
    var v := decoded.value;
    var n := |v| - 4;
    if check(v[..n]) != v[n..] {
      return None;
    }
    assert v[..n] + v[n..] == v;
    return Some(v[..n]);
  }

  /** An address is 34 digits: a version byte of 3 to 143, 20 bytes of hash and 4 of check. */
  lemma AddressLength(bytes: seq<nat>, d: seq<nat>)
    requires Bytes(bytes) && |bytes| == 25 && 3 <= bytes[0] <= 143
    requires InBase(d, 58) && Minimal(d) && Value(d, 58) == Value(bytes, 256)
    ensures |d| == 34
  {
    hide Value, Pow;
    LeadingByte(bytes);
    Between();
    MinimalLength(d, 58, 34);
  }

  lemma Between()
    ensures 2 * Pow(256, 24) <= Pow(58, 33) <= 3 * Pow(256, 24)
    ensures 144 * Pow(256, 24) <= Pow(58, 34) <= 145 * Pow(256, 24)
    ensures Pow(256, 24) <= Pow(58, 33) && Pow(58, 34) <= Pow(256, 25)
  {
    hide Pow;
    PowSmall(58);
    PowAdd(58, 4, 4);
    PowAdd(58, 8, 8);
    PowAdd(58, 16, 16);
    PowAdd(58, 32, 1);
    PowAdd(58, 32, 2);
    PowSmall(256);
    PowAdd(256, 4, 4);
    PowAdd(256, 8, 8);
    PowAdd(256, 16, 8);
    PowAdd(256, 24, 1);
  }

  // ---- which payloads come back ----

  /** The bytes encode to exactly 34 characters. */
  ghost predicate Encodes34(bytes: seq<nat>) {
    var z := Zeros(bytes);
    z <= 34 && Value(bytes, 256) < Pow(58, 34 - z) && (z < 34 ==> Value(bytes, 256) >= Pow(58, 33 - z))
  }

  /** The length of an encoding, read off the bytes. */
  lemma EncodedLength(s: string, bytes: seq<nat>, d: seq<nat>)
    requires Bytes(bytes) && Encodes(s, bytes, d)
    ensures |s| == 34 <==> Encodes34(bytes)
  {
    hide Value, Pow, Letter;
    var z := Zeros(bytes);
    assert |s| == z + |d|;
    ValueBound(d, 58);
    if |s| == 34 {
      if d != [] {
        ValueAtLeast(d, 58);
      }
    }
    if Encodes34(bytes) {
      if z < 34 {
        MinimalLength(d, 58, 34 - z);
      } else {
        PowZero(58);
        NoDigits(d, 58);
      }
    }
  }

  lemma PowZero(b: nat)
    ensures Pow(b, 0) == 1
  {
  }

  lemma NoDigits(d: seq<nat>, b: nat)
    requires b > 0 && Minimal(d) && Value(d, b) == 0
    ensures d == []
  {
    hide Value, Pow;
    if d != [] {
      ValueAtLeast(d, b);
      PowPositive(b, |d| - 1);
    }
  }

  /**
   With a version byte other than zero only 25 bytes can make 34 characters; which of them is decided by the version.
   */
  lemma VersionDecides(bytes: seq<nat>)
    requires Bytes(bytes) && bytes != [] && bytes[0] != 0
    ensures |bytes| != 25 ==> !Encodes34(bytes)
    ensures |bytes| == 25 && 3 <= bytes[0] <= 143 ==> Encodes34(bytes)
    ensures |bytes| == 25 && (bytes[0] < 2 || bytes[0] > 144) ==> !Encodes34(bytes)
  {
    hide Value, Pow;
    var n := |bytes|;
    assert Zeros(bytes) == 0;
    ValueAtLeast(bytes, 256);
    ValueBound(bytes, 256);
    Between();
    if n > 25 {
      PowMono(256, 25, n - 1);
    } else if n < 25 {
      PowMono(256, n, 24);
    } else {
      LeadingByte(bytes);
    }
  }

  lemma LeadingByte(bytes: seq<nat>)
    requires Bytes(bytes) && |bytes| == 25
    ensures bytes[0] * Pow(256, 24) <= Value(bytes, 256) < (bytes[0] + 1) * Pow(256, 24)
    ensures bytes[0] >= 3 ==> Value(bytes, 256) >= 3 * Pow(256, 24)
    ensures bytes[0] <= 143 ==> Value(bytes, 256) < 144 * Pow(256, 24)
    ensures bytes[0] < 2 ==> Value(bytes, 256) < 2 * Pow(256, 24)
    ensures bytes[0] > 144 ==> Value(bytes, 256) >= 145 * Pow(256, 24)
  {
    hide Value, Pow;
    assert bytes == [bytes[0]] + bytes[1..];
    ValueFront(bytes[0], bytes[1..], 256);
    ValueBound(bytes[1..], 256);
    assert (bytes[0] + 1) * Pow(256, 24) == bytes[0] * Pow(256, 24) + Pow(256, 24);
    var p := Pow(256, 24);
    if bytes[0] >= 3 {
      Scale(3, bytes[0], p);
    }
    if bytes[0] <= 143 {
      Scale(bytes[0] + 1, 144, p);
    }
    if bytes[0] < 2 {
      Scale(bytes[0] + 1, 2, p);
    }
    if bytes[0] > 144 {
      Scale(145, bytes[0], p);
    }
  }

  /** An encoding with the prefix left on is read as a larger number. */
  lemma PrefixStays(s: string, bytes: seq<nat>, d: seq<nat>)
    requires Bytes(bytes) && Encodes(s, bytes, d)
    ensures !Decodes("SL" + s, bytes)
  {
    hide Value, Pow, Letter, Index, RunEnd, IsSpace, Zeros;
    var t := "SL" + s;
    var z := Zeros(bytes);
    PrefixDigits();
    forall k | 0 <= k < |t| ensures !IsSpace(t[k]) {
      if k >= 2 + z {
        LetterIndex(d[k - 2 - z]);
      } else if k >= 2 {
        OneIsNoSpace();
      }
    }
    RunTo(t, 0, 0, Spaces);
    RunTo(t, 0, 0, LeadingOnes);
    RunTo(t, 0, |t|, NoSpaces);
    if Decodes(t, bytes) {
      var digits: seq<nat> := Indexes(t, 0, |t|);
      forall k | 0 <= k < |d| ensures digits[2..][k] == d[k] {
        LetterIndex(d[k]);
      }
      assert digits[2..] == d;
      assert digits == digits[..2] + digits[2..];
      ValueJoin(digits[..2], digits[2..], 58);
      ValueAtLeast(digits[..2], 58);
      PowPositive(58, 1);
      PowPositive(58, |digits[2..]|);
      Scale(1, Value(digits[..2], 58), Pow(58, |digits[2..]|));
    }
  }

  lemma PrefixDigits()
    ensures Index('S') == 25 && Index('L') == 19 && Index('1') == 0 && !IsSpace('S') && !IsSpace('L')
  {
  }

  /**
   The round trip of checked Base58.  A payload comes back exactly if its checked encoding has 34 characters, since for
   any other length the prefix is not taken off.  With a version byte other than zero that takes 21 bytes, and a version
   of 3 to 143 is always enough.
   */
  method CheckRoundTrip(payload: seq<nat>, check: seq<nat> -> seq<nat>) returns (s: string, r: Option<seq<nat>>)
    requires Bytes(payload) && Checks(check)
    ensures |s| >= 2 && s[..2] == "SL"
    ensures r == Some(payload) <==> |s| == 36
    ensures r == Some(payload) <==> Encodes34(payload + check(payload))
    ensures payload != [] && payload[0] != 0 && r == Some(payload) ==> |payload| == 21 && 2 <= payload[0] <= 144
    ensures |payload| == 21 && 3 <= payload[0] <= 143 ==> r == Some(payload)
  {
    hide Decodes, Readable, Value, Letter, Pow, Encodes34;
    ghost var d;
    s, d := EncodeBase58Check(payload, check);
    ghost var bytes := payload + check(payload);
    NoNull(s, bytes, d);
    EncodedLength(s[2..], bytes, d);
    if payload != [] && payload[0] != 0 {
      VersionDecides(bytes);
    }
    r := DecodeBase58Check(s, check);
    if |s| == 36 {
      CheckBack(s[2..], payload, check, d, r);
    } else {
      assert s == "SL" + s[2..];
      PrefixStays(s[2..], bytes, d);
    }
  }

  const SECRET_KEY := 128

  /**
   A private key written by EncodeSecret, compressed or not, is never read back: its 33 or 34 bytes make more than 34
   characters, so the prefix stays and is read as digits.
   */
  method SecretRoundTrip(key: seq<nat>, compressed: bool, check: seq<nat> -> seq<nat>)
    returns (s: string, r: Option<seq<nat>>)
    requires Bytes(key) && |key| == 32 && Checks(check)
    ensures |s| != 36 && r != Some([128] + key + if compressed then [1] else [])
  {
    s, r := CheckRoundTrip([SECRET_KEY] + key + if compressed then [1] else [], check);
  }

  /** The same of the formats alone, for a key of 32 ones: whatever string encodes it does not decode to it. */
  lemma SecretLost(check: seq<nat> -> seq<nat>, s: string, d: seq<nat>)
    requires Checks(check)
    requires var payload := [SECRET_KEY] + seq(32, _ => 1); Encodes(s, payload + check(payload), d)
    ensures var payload := [SECRET_KEY] + seq(32, _ => 1); |s| != 34 && !Decodes("SL" + s, payload + check(payload))
  {
    hide Decodes, Encodes, Encodes34;
    var payload: seq<nat> := [SECRET_KEY] + seq(32, _ => 1);
    var bytes := payload + check(payload);
    EncodedLength(s, bytes, d);
    VersionDecides(bytes);
    PrefixStays(s, bytes, d);
  }

  lemma NoNull(s: string, bytes: seq<nat>, d: seq<nat>)
    requires |s| >= 2 && s[..2] == "SL" && Encodes(s[2..], bytes, d)
    ensures '\0' !in s
  {
    hide Letter, Value;
    forall i | 0 <= i < |s| ensures s[i] != '\0' {
      if i < 2 {
        assert s[i] == s[..2][i];
      } else {
        assert s[i] == s[2..][i - 2];
        if i - 2 >= Zeros(bytes) {
          LetterPlain(d[i - 2 - Zeros(bytes)]);
        }
      }
    }
  }

  lemma CheckBack(body: string, payload: seq<nat>, check: seq<nat> -> seq<nat>, d: seq<nat>, r: Option<seq<nat>>)
    requires Bytes(payload) && Checks(check) && Encodes(body, payload + check(payload), d)
    requires r.Some? ==> Decodes(body, r.value + check(r.value))
    requires r.None? && Readable(body) ==>
               exists v :: Decodes(body, v) && (|v| < 4 || check(v[..|v| - 4]) != v[|v| - 4..])
    ensures r == Some(payload)
  {
    hide Encodes, Decodes, Readable;
    var bytes := payload + check(payload);
    EncodedDecodes(body, bytes, d, bytes);
    var n := |payload|;
    assert bytes[..n] == payload && bytes[n..] == check(payload);
    if r.Some? {
      var v := r.value + check(r.value);
      EncodedDecodes(body, bytes, d, v);
      assert r.value == v[..|v| - 4] == payload;
    } else {
      var v :| Decodes(body, v) && (|v| < 4 || check(v[..|v| - 4]) != v[|v| - 4..]);
      EncodedDecodes(body, bytes, d, v);
    }
  }
}
