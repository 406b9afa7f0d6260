/** Bech32 strings (src/bech32.cpp; section "Bech32" of BIP 173). */
module Bech32 {
  import opened Powers
  import opened XorBits
  import opened Bech32Code
  import opened Bech32Errors

  /** The character set. */
  function Letter(v: nat): char {
    match v
    case 0 => 'q' case 1 => 'p' case 2 => 'z' case 3 => 'r' case 4 => 'y' case 5 => '9' case 6 => 'x'
    case 7 => '8' case 8 => 'g' case 9 => 'f' case 10 => '2' case 11 => 't' case 12 => 'v' case 13 => 'd'
    case 14 => 'w' case 15 => '0' case 16 => 's' case 17 => '3' case 18 => 'j' case 19 => 'n' case 20 => '5'
    case 21 => '4' case 22 => 'k' case 23 => 'h' case 24 => 'c' case 25 => 'e' case 26 => '6' case 27 => 'm'
    case 28 => 'u' case 29 => 'a' case 30 => '7' case _ => 'l'
  }

  function LowerCase(c: char): char { if 'A' <= c <= 'Z' then (c as int - 'A' as int + 'a' as int) as char else c }

  /** The reverse table: the value of a character of the set in either case, or -1. */
  function Index(c: char): int {
    match LowerCase(c)
    case 'q' => 0 case 'p' => 1 case 'z' => 2 case 'r' => 3 case 'y' => 4 case '9' => 5 case 'x' => 6
    case '8' => 7 case 'g' => 8 case 'f' => 9 case '2' => 10 case 't' => 11 case 'v' => 12 case 'd' => 13
    case 'w' => 14 case '0' => 15 case 's' => 16 case '3' => 17 case 'j' => 18 case 'n' => 19 case '5' => 20
    case '4' => 21 case 'k' => 22 case 'h' => 23 case 'c' => 24 case 'e' => 25 case '6' => 26 case 'm' => 27
    case 'u' => 28 case 'a' => 29 case '7' => 30 case 'l' => 31 case _ => -1
  }

  predicate IsLower(c: char) { 'a' <= c <= 'z' }
  predicate IsUpper(c: char) { 'A' <= c <= 'Z' }

  /** The letters are the values' own: printable, never upper case, never the separator, and read back as written. */
  lemma LetterIndex(v: nat)
    requires v < 32
    ensures Index(Letter(v)) == v && Letter(v) != '1' && !IsUpper(Letter(v)) && 33 <= Letter(v) as int <= 126
  {
  }

  lemma CharacterSet(v: nat)
    requires v < 32
    ensures Letter(v) == "qpzry9x8gf2tvdw0s3jn54khce6mua7l"[v]
  {
  }

  lemma IndexRange(c: char)
    ensures -1 <= Index(c) < 32
  {
  }

  // ---- checksum ----

  method PolyMod(v: seq<nat>) returns (c: nat)
    ensures c == Fold(1, v)
  {
    hide Step;
    c := 1;
    for i := 0 to |v|
      invariant c == Fold(1, v[..i])
    {
      assert v[..i + 1] == v[..i] + [v[i]];
      FoldLast(1, v[..i], v[i]);
      c := Step(c, v[i]);
    }
    assert v[..|v|] == v;
  }

  /** The prefix as values: the high bits of its characters, a zero, and the low bits. */
  function Expanded(hrp: string): (r: seq<nat>)
    ensures |r| == 2 * |hrp| + 1
  {
    seq(2 * |hrp| + 1, (i: nat) requires i < 2 * |hrp| + 1 =>
      if i < |hrp| then hrp[i] as int / 32 else if i == |hrp| then 0 else hrp[i - |hrp| - 1] as int % 32)
  }

  method ExpandHRP(hrp: string) returns (r: seq<nat>)
    ensures r == Expanded(hrp)
  {
    var ret := new nat[2 * |hrp| + 1];
    for i := 0 to |hrp|
      invariant forall j | 0 <= j < i :: ret[j] == hrp[j] as int / 32 && ret[j + |hrp| + 1] == hrp[j] as int % 32
    {
      ret[i] := hrp[i] as int / 32;
      ret[i + |hrp| + 1] := hrp[i] as int % 32;
    }
    ret[|hrp|] := 0;
    r := ret[..];
  }

  ghost predicate ChecksumOk(hrp: string, values: seq<nat>) { Fold(1, Expanded(hrp) + values) == 1 }

  method VerifyChecksum(hrp: string, values: seq<nat>) returns (ok: bool)
    ensures ok == ChecksumOk(hrp, values)
  {
    var head := ExpandHRP(hrp);
    var c := PolyMod(head + values);
    ok := c == 1;
  }

  /** The i-th of the six 5-bit groups of a state, highest first. */
  function Digit(m: nat, i: nat): nat
    requires i < 6
  {
    High(m, 5 * (5 - i)) % 32
  }

  /** A checksum makes the values good. */
  method CreateChecksum(hrp: string, values: seq<nat>) returns (r: seq<nat>)
    requires Plain(hrp) && Fives(values)
    ensures |r| == 6 && Fives(r) && ChecksumOk(hrp, values + r)
  {
    hide Step, Pow2, Xor, Fold, High;
    var head := ExpandHRP(hrp);
    var enc := head + values + [0, 0, 0, 0, 0, 0];
    var mod := PolyMod(enc);
    ghost var state := mod;
    mod := Xor(mod, 1);
    var ret := new nat[6];
    for i := 0 to 6
      invariant forall j: nat | j < i :: ret[j] == Digit(mod, j)
    {
      ret[i] := Digit(mod, i);
    }
    r := ret[..];
    ChecksumWorks(hrp, values, state, r);
  }

  /** The characters of a prefix: printable ASCII. */
  ghost predicate Plain(hrp: string) { forall i | 0 <= i < |hrp| :: 33 <= hrp[i] as int <= 126 }

  lemma ExpandedFives(hrp: string)
    requires Plain(hrp)
    ensures Fives(Expanded(hrp))
  {
  }

  lemma ChecksumWorks(hrp: string, values: seq<nat>, state: nat, r: seq<nat>)
    requires Plain(hrp) && Fives(values) && state == Fold(1, Expanded(hrp) + values + [0, 0, 0, 0, 0, 0])
    requires |r| == 6 && forall j: nat | j < 6 :: r[j] == Digit(Xor(state, 1), j)
    ensures Fives(r) && ChecksumOk(hrp, values + r)
  {
    hide Step, Pow2, Xor, Fold, High, Packed;
    var head, zeros := Expanded(hrp) + values, [0, 0, 0, 0, 0, 0];
    ExpandedFives(hrp);
    assert Fives(r);
    assert Fives(head + zeros);
    Constants();
    FoldFits(1, head + zeros);
    XorBound(state, 1, 30);
    Digits(Xor(state, 1), r);
    FoldPacks(r);
    FoldJoin(1, head, zeros);
    FoldJoin(1, head, r);
    var c := Fold(1, head);
    forall i | 0 <= i < 6 ensures r[i] == Xor(zeros[i], r[i]) {
      XorZero(r[i]);
    }
    FoldLinear(c, 0, r, zeros, r);
    XorZero(c);
    XorAssoc(state, state, 1);
    XorZero(state);
    XorZero(1);
    assert head + r == Expanded(hrp) + (values + r);
  }

  /** The six groups of a state packed again are the state. */
  lemma Digits(m: nat, r: seq<nat>)
    requires m < Pow2(30) && |r| == 6 && forall j: nat | j < 6 :: r[j] == Digit(m, j)
    ensures Packed(r) == m
  {
    hide Pow2, High;
    DigitsPart(m, r, 6);
    assert r[..6] == r;
    HighLowZero(m);
  }

  lemma {:induction false} DigitsPart(m: nat, r: seq<nat>, n: nat)
    requires m < Pow2(30) && |r| == 6 && (forall j: nat | j < 6 :: r[j] == Digit(m, j)) && n <= 6
    ensures Packed(r[..n]) == High(m, 5 * (6 - n))
  {
    hide Pow2, High;
    if n == 0 {
      TopIsZero(m);
    } else {
      DigitsPart(m, r, n - 1);
      assert r[..n][..n - 1] == r[..n - 1];
      HighNext(m, 5 * (6 - n));
    }
  }

  lemma TopIsZero(m: nat)
    requires m < Pow2(30)
    ensures High(m, 30) == 0
  {
    DivMod(m, 0, m, Pow2(30));
  }

  lemma HighNext(m: nat, k: nat)
    ensures High(m, k) == High(m, k + 5) * 32 + High(m, k) % 32
  {
    hide Pow2;
    Constants();
    Pow2Add(k, 5);
    TwoDivisions(m, Pow2(k), 32, m / Pow2(k), m % Pow2(k));
  }

  // ---- strings ----

  ghost function Letters(values: seq<nat>): string { seq(|values|, i requires 0 <= i < |values| => Letter(values[i])) }

  /** Encode: the prefix, the separator, the values' letters and the letters of a checksum that makes them good. */
  method Encode(hrp: string, values: seq<nat>) returns (s: string, ghost checksum: seq<nat>)
    requires Plain(hrp) && Fives(values)
    ensures |checksum| == 6 && Fives(checksum) && ChecksumOk(hrp, values + checksum)
    ensures s == hrp + ['1'] + Letters(values + checksum)
  {
    hide Letter, ChecksumOk, Letters;
    var sum := CreateChecksum(hrp, values);
    checksum := sum;
    var combined := values + sum;
    s := hrp + ['1'];
    LettersNone();
    for i := 0 to |combined|
      invariant s == hrp + ['1'] + Letters(combined[..i])
    {
      LettersNext(combined, i);
      s := s + [Letter(combined[i])];
    }
    assert combined[..|combined|] == combined;
  }

  lemma LettersNone()
    ensures Letters([]) == []
  {
  }

  lemma LettersNext(values: seq<nat>, i: nat)
    requires i < |values|
    ensures Letters(values[..i + 1]) == Letters(values[..i]) + [Letter(values[i])]
  {
  }

  /** The last separator, or -1. */
  ghost function Separator(s: string): (p: int)
    ensures -1 <= p < |s| && (p >= 0 ==> s[p] == '1')
  {
    if s == [] then -1 else if s[|s| - 1] == '1' then |s| - 1 else Separator(s[..|s| - 1])
  }

  ghost predicate AnyLower(s: string) { exists i :: 0 <= i < |s| && IsLower(s[i]) }
  ghost predicate AnyUpper(s: string) { exists i :: 0 <= i < |s| && IsUpper(s[i]) }

  /** Printable characters of one case, a separator in the right place, and characters of the set behind it. */
  ghost predicate WellFormed(s: string) {
    var pos := Separator(s);
    && Plain(s) && !(AnyLower(s) && AnyUpper(s)) && |s| <= 90 && 0 < pos && pos + 7 <= |s|
    && forall i | pos < i < |s| :: Index(s[i]) != -1
  }

  ghost function Lowered(s: string): string { seq(|s|, i requires 0 <= i < |s| => LowerCase(s[i])) }

  ghost function Prefix(s: string): string
    requires WellFormed(s)
  {
    Lowered(s[..Separator(s)])
  }

  ghost function Values(s: string): seq<nat>
    requires WellFormed(s)
  {
    var rest := s[Separator(s) + 1..];
    seq(|rest|, i requires 0 <= i < |rest| => Index(rest[i]))
  }

  ghost predicate Accepts(s: string) { WellFormed(s) && ChecksumOk(Prefix(s), Values(s)) }

  /** Decode: prefix and data of an accepted string, and two empty things otherwise. */
  method Decode(s: string) returns (hrp: string, data: seq<nat>)
    ensures if Accepts(s) then hrp == Prefix(s) && data == Values(s)[..|s| - 1 - Separator(s) - 6]
            else hrp == "" && data == []
  {
    hide Index, LowerCase, ChecksumOk;
    var bad := CheckChars(s);
    if bad {
      return "", [];
    }
    var pos := FindSeparator(s);
    if |s| > 90 || pos == -1 || pos == 0 || pos + 7 > |s| {
      return "", [];
    }
    var known, values := ReadValues(s[pos + 1..]);
    RestKnown(s, pos, s[pos + 1..]);
    if !known {
      return "", [];
    }
    hrp := "";
    for i := 0 to pos
      invariant hrp == Lowered(s[..i])
    {
      hrp := hrp + [LowerCase(s[i])];
    }
    assert values == Values(s);
    var ok := VerifyChecksum(hrp, values);
    if !ok {
      return "", [];
    }
    return hrp, values[..|values| - 6];
  }

  /** Whether a character is not printable or the cases are mixed. */
  method CheckChars(s: string) returns (bad: bool)
    ensures bad <==> !(Plain(s) && !(AnyLower(s) && AnyUpper(s)))
  {
    var lower, upper := false, false;
    for i := 0 to |s|
      invariant lower <==> exists j :: 0 <= j < i && IsLower(s[j])
      invariant upper <==> exists j :: 0 <= j < i && IsUpper(s[j])
      invariant forall j | 0 <= j < i :: 33 <= s[j] as int <= 126
    {
      var c := s[i];
      if IsLower(c) {
        lower := true;
      } else if IsUpper(c) {
        upper := true;
      } else if c as int < 33 || c as int > 126 {
        return true;
      }
    }
    return lower && upper;
  }

  method FindSeparator(s: string) returns (pos: int)
    ensures pos == Separator(s)
  {
    pos := |s| - 1;
    assert s[..|s|] == s;
    while pos >= 0
      invariant -1 <= pos < |s| && Separator(s) == Separator(s[..pos + 1])
    {
      if s[pos] == '1' {
        return;
      }
      assert s[..pos + 1][..pos] == s[..pos];
      pos := pos - 1;
    }
  }

  /** The values of the characters behind the separator, if all of them are in the set. */
  method ReadValues(rest: string) returns (known: bool, values: seq<nat>)
    ensures known <==> forall i | 0 <= i < |rest| :: Index(rest[i]) != -1
    ensures known ==> |values| == |rest| && forall i | 0 <= i < |rest| :: values[i] == Index(rest[i])
  {
    hide Index;
    values := [];
    for i := 0 to |rest|
      invariant |values| == i && forall j | 0 <= j < i :: Index(rest[j]) != -1 && values[j] == Index(rest[j])
    {
      var rev := Index(rest[i]);
      if rev == -1 {
        return false, [];
      }
      IndexRange(rest[i]);
      values := values + [rev];
    }
    return true, values;
  }

  lemma RestKnown(s: string, pos: nat, rest: string)
    requires pos < |s| && rest == s[pos + 1..]
    ensures (forall i | 0 <= i < |rest| :: Index(rest[i]) != -1) <==> forall i | pos < i < |s| :: Index(s[i]) != -1
  {
    hide Index;
    if forall i | 0 <= i < |rest| :: Index(rest[i]) != -1 {
      forall i | pos < i < |s| ensures Index(s[i]) != -1 {
        assert rest[i - pos - 1] == s[i];
      }
    }
  }

  // ---- round trip ----

  ghost predicate IsLowerPrefix(hrp: string) { hrp != [] && Plain(hrp) && !AnyUpper(hrp) }

  lemma {:induction false} SeparatorOf(hrp: string, values: seq<nat>)
    requires Fives(values)
    ensures Separator(hrp + ['1'] + Letters(values)) == |hrp|
    decreases |values|
  {
    var s := hrp + ['1'] + Letters(values);
    if values != [] {
      var n := |values| - 1;
      LetterIndex(values[n]);
      assert s[..|s| - 1] == hrp + ['1'] + Letters(values[..n]);
      SeparatorOf(hrp, values[..n]);
    }
  }

  /** An encoded string of at most 90 characters is accepted and decodes to what was encoded. */
  lemma EncodedIsAccepted(hrp: string, values: seq<nat>, checksum: seq<nat>)
    requires IsLowerPrefix(hrp) && Fives(values) && |checksum| == 6 && Fives(checksum)
             && ChecksumOk(hrp, values + checksum)
    requires |hrp| + 1 + |values| + 6 <= 90
    ensures var s := hrp + ['1'] + Letters(values + checksum);
            Accepts(s) && Prefix(s) == hrp && Values(s)[..|s| - 1 - Separator(s) - 6] == values
  {
    hide Index, Letter, ChecksumOk;
    var all := values + checksum;
    var s := hrp + ['1'] + Letters(all);
    SeparatorOf(hrp, all);
    forall i | |hrp| < i < |s|
      ensures s[i] == Letter(all[i - |hrp| - 1]) && Index(s[i]) == all[i - |hrp| - 1] && !IsUpper(s[i])
              && 33 <= s[i] as int <= 126
    {
      LetterIndex(all[i - |hrp| - 1]);
    }
    forall i | 0 <= i < |hrp| ensures s[i] == hrp[i] && LowerCase(hrp[i]) == hrp[i] && !IsUpper(s[i]) {
    }
    assert !AnyUpper(s);
    assert WellFormed(s);
    assert Lowered(s[..|hrp|]) == hrp;
    assert Values(s) == all;
  }

  method RoundTrip(hrp: string, values: seq<nat>) returns (hrp': string, values': seq<nat>)
    requires IsLowerPrefix(hrp) && Fives(values) && |hrp| + 1 + |values| + 6 <= 90
    ensures hrp' == hrp && values' == values
  {
    hide Index, Letter, ChecksumOk, Accepts, Prefix, Values, Separator, Letters;
    ghost var checksum;
    var s;
    s, checksum := Encode(hrp, values);
    EncodedIsAccepted(hrp, values, checksum);
    hrp', values' := Decode(s);
  }

  // ---- errors ----

  /** The strings have the same length, the same prefix and no separator in the changed data part. */
  ghost predicate DataChanged(s: string, t: string) {
    && |s| == |t| && (forall i | 0 <= i <= Separator(s) :: s[i] == t[i])
    && forall i | Separator(s) < i < |t| :: t[i] != '1'
  }

  /** They agree outside six neighbouring characters of the data part. */
  ghost predicate BurstApart(s: string, t: string, lo: nat) {
    DataChanged(s, t) && Separator(s) < lo && forall i | 0 <= i < |s| && !(lo <= i < lo + 6) :: s[i] == t[i]
  }

  /** They agree outside three characters of the data part, wherever these are. */
  ghost predicate ThreeApart(s: string, t: string, i: nat, j: nat, k: nat) {
    && DataChanged(s, t) && Separator(s) < i < j < k < |s|
    && forall h | 0 <= h < |s| && h != i && h != j && h != k :: s[h] == t[h]
  }

  lemma IndexInjective(a: char, b: char)
    ensures LowerCase(a) == LowerCase(b) ==> Index(a) == Index(b)
    ensures Index(a) == Index(b) != -1 ==> LowerCase(a) == LowerCase(b)
  {
    hide LowerCase, Letter;
    IndexLetter(a);
    IndexLetter(b);
  }

  lemma IndexLetter(a: char)
    ensures Index(a) != -1 ==> 0 <= Index(a) < 32 && LowerCase(a) == Letter(Index(a))
  {
    hide LowerCase;
  }

  lemma {:induction false} SeparatorIs(s: string, p: nat)
    requires p < |s| && s[p] == '1' && forall i | p < i < |s| :: s[i] != '1'
    ensures Separator(s) == p
  {
    if p < |s| - 1 {
      SeparatorIs(s[..|s| - 1], p);
    }
  }

  lemma SameSeparator(s: string, t: string)
    requires WellFormed(s) && DataChanged(s, t)
    ensures Separator(t) == Separator(s)
  {
    hide Index, Separator;
    SeparatorIs(t, Separator(s));
  }

  lemma PlainEither(a: char, b: char)
    requires LowerCase(a) == LowerCase(b) && 33 <= a as int <= 126
    ensures 33 <= b as int <= 126
  {
  }

  lemma ChecksumsDiffer(hrp: string, v: seq<nat>, w: seq<nat>, lo: nat)
    requires Plain(hrp) && Fives(v) && Fives(w) && |v| == |w| && v != w
    requires forall i | 0 <= i < |v| && !(lo <= i < lo + 6) :: v[i] == w[i]
    ensures !(ChecksumOk(hrp, v) && ChecksumOk(hrp, w))
  {
    hide Fold, Pow2;
    var head := Expanded(hrp);
    ExpandedFives(hrp);
    var a, b := head + v, head + w;
    assert a[|head|..] == v && b[|head|..] == w;
    Constants();
    var from := if |head| + lo <= |a| then |head| + lo else |a|;
    var to := if from + 6 <= |a| then from + 6 else |a|;
    BurstDetected(1, a, b, from, to);
  }

  lemma LoweredPlain(s: string)
    requires Plain(s)
    ensures Plain(Lowered(s))
  {
  }

  /** Up to three other values within 1023 are detected under any prefix. */
  lemma ThreeChecksumsDiffer(hrp: string, v: seq<nat>, w: seq<nat>, i: nat, j: nat, k: nat)
    requires Plain(hrp) && Fives(v) && Fives(w) && i < j < k < |v| == |w| && k - i <= 1022 && v != w
    requires forall h | 0 <= h < |v| && h != i && h != j && h != k :: v[h] == w[h]
    ensures !(ChecksumOk(hrp, v) && ChecksumOk(hrp, w))
  {
    hide Fold, Pow2;
    var head := Expanded(hrp);
    ExpandedFives(hrp);
    var a, b, n := head + v, head + w, |head|;
    assert a[n..] == v && b[n..] == w;
    ThreeDetected(1, a, b, n + i, n + j, n + k);
  }

  /** A string that differs from an accepted one in the case of letters only is accepted unless it mixes cases. */
  lemma SameButCase(s: string, t: string)
    requires Accepts(s) && DataChanged(s, t) && Lowered(t) == Lowered(s) && !(AnyLower(t) && AnyUpper(t))
    ensures Accepts(t)
  {
    hide Index, LowerCase, ChecksumOk, Separator, AnyLower, AnyUpper;
    SameSeparator(s, t);
    var pos := Separator(s);
    forall i | 0 <= i < |s| ensures 33 <= t[i] as int <= 126 && Index(t[i]) == Index(s[i]) {
      assert Lowered(t)[i] == Lowered(s)[i];
      PlainEither(s[i], t[i]);
      IndexInjective(s[i], t[i]);
    }
    assert t[..pos] == s[..pos];
    assert Values(t) == Values(s);
  }

  /** A well-formed string with other letters has other values under the same prefix. */
  lemma OtherValues(s: string, t: string)
    requires WellFormed(s) && DataChanged(s, t) && Lowered(t) != Lowered(s) && WellFormed(t)
    ensures Prefix(t) == Prefix(s) && Plain(Prefix(s)) && Separator(s) >= 0 && Values(s) != Values(t)
    ensures |Values(s)| == |Values(t)| == |s| - Separator(s) - 1 <= 89 && Fives(Values(s)) && Fives(Values(t))
    ensures forall i | 0 <= i < |Values(s)| ::
              s[Separator(s) + 1 + i] == t[Separator(s) + 1 + i] ==> Values(s)[i] == Values(t)[i]
  {
    hide Index, LowerCase, Separator, AnyLower, AnyUpper;
    SameSeparator(s, t);
    var pos := Separator(s);
    assert t[..pos] == s[..pos];
    var v, w := Values(s), Values(t);
    forall i | 0 <= i < |v|
      ensures v[i] < 32 && w[i] < 32 && v[i] == Index(s[pos + 1 + i]) && w[i] == Index(t[pos + 1 + i])
    {
      IndexRange(s[pos + 1 + i]);
      IndexRange(t[pos + 1 + i]);
    }
    var i :| 0 <= i < |s| && LowerCase(s[i]) != LowerCase(t[i]);
    IndexInjective(s[i], t[i]);
    assert v[i - pos - 1] != w[i - pos - 1];
    LoweredPlain(s[..pos]);
  }

  /**
   Changing up to six neighbouring characters of the data part of an accepted string, without writing a separator there,
   makes it rejected, unless only the case of letters changed and the result does not mix cases.
   */
  lemma BurstRejected(s: string, t: string, lo: nat)
    requires Accepts(s) && BurstApart(s, t, lo)
    ensures Accepts(t) <==> Lowered(t) == Lowered(s) && !(AnyLower(t) && AnyUpper(t))
  {
    hide Index, LowerCase, ChecksumOk, Separator, AnyLower, AnyUpper, Lowered, Values, Prefix, Plain, Fives;
    if WellFormed(t) && Lowered(t) != Lowered(s) {
      OtherValues(s, t);
      ChecksumsDiffer(Prefix(s), Values(s), Values(t), lo - Separator(s) - 1);
    }
    if Lowered(t) == Lowered(s) && !(AnyLower(t) && AnyUpper(t)) {
      SameButCase(s, t);
    }
  }

  /** The same for up to three characters anywhere in the data part. */
  lemma ThreeRejected(s: string, t: string, i: nat, j: nat, k: nat)
    requires Accepts(s) && ThreeApart(s, t, i, j, k)
    ensures Accepts(t) <==> Lowered(t) == Lowered(s) && !(AnyLower(t) && AnyUpper(t))
  {
    hide Index, LowerCase, ChecksumOk, Separator, AnyLower, AnyUpper, Lowered, Values, Prefix, Plain, Fives;
    if WellFormed(t) && Lowered(t) != Lowered(s) {
      OtherValues(s, t);
      var at := Separator(s) + 1;
      ThreeChecksumsDiffer(Prefix(s), Values(s), Values(t), i - at, j - at, k - at);
    }
    if Lowered(t) == Lowered(s) && !(AnyLower(t) && AnyUpper(t)) {
      SameButCase(s, t);
    }
  }
}
