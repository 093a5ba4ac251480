/** Integers of any byte width as hexadecimal text, and back.  */
module Hex {
  import opened Basics

  const UPPER := "0123456789ABCDEF"
  const LOWER := "0123456789abcdef"

  datatype Error = NonHexInput(bad: char) | NotEnoughInput

  /** A decoder that throws leaves the elements before in the output. */
  datatype Decoded = Decoded(values: seq<nat>, error: Option<Error>)

  function HexCharToInt(c: char): (v: Option<nat>)
    ensures v.Some? ==> v.value < 16
  {
    if '0' <= c <= '9' then Some(c as int - '0' as int)
    else if 'A' <= c <= 'F' then Some(c as int - 'A' as int + 10)
    else if 'a' <= c <= 'f' then Some(c as int - 'a' as int + 10)
    else None
  }

  predicate IsHex(s: string) {
    forall i | 0 <= i < |s| :: HexCharToInt(s[i]).Some?
  }

  predicate IsDigitTable(digits: string) {
    |digits| == 16 && forall v | 0 <= v < 16 :: HexCharToInt(digits[v]) == Some(v)
  }

  lemma TablesAreDigits()
    ensures IsDigitTable(UPPER) && IsDigitTable(LOWER)
  {
    forall v | 0 <= v < 16 ensures HexCharToInt(UPPER[v]) == Some(v) && HexCharToInt(LOWER[v]) == Some(v) {
      if v < 10 {
        assert UPPER[v] == LOWER[v] == "0123456789"[v] == '0' + v as char;
      } else {
        assert UPPER[v] == "ABCDEF"[v - 10] == 'A' + (v - 10) as char;
        assert LOWER[v] == "abcdef"[v - 10] == 'a' + (v - 10) as char;
      }
    }
  }

  /** Only the characters of the two tables are digits. */
  lemma DigitsExactly(c: char)
    ensures HexCharToInt(c).Some? <==> c in UPPER || c in LOWER
  {
    hide HexCharToInt;
    TablesAreDigits();
    if HexCharToInt(c).Some? {
      SameDigit(c, HexCharToInt(c).value);
    }
  }

  lemma SameDigit(c: char, v: nat)
    requires HexCharToInt(c) == Some(v)
    ensures c == UPPER[v] || c == LOWER[v]
  {
    if v < 10 {
      assert UPPER[v] == LOWER[v] == "0123456789"[v] == '0' + v as char;
    } else {
      assert UPPER[v] == "ABCDEF"[v - 10] == 'A' + (v - 10) as char;
      assert LOWER[v] == "abcdef"[v - 10] == 'a' + (v - 10) as char;
    }
  }

  /** How a digit is written with the given table. */
  function Redigit(s: string, digits: string): (r: string)
    requires IsHex(s) && |digits| == 16
    ensures |r| == |s| && forall i | 0 <= i < |s| :: r[i] == digits[HexCharToInt(s[i]).value]
  {
    seq(|s|, i requires 0 <= i < |s| => digits[HexCharToInt(s[i]).value])
  }

  function Power(n: nat): (p: nat)
    ensures p > 0
  {
    if n == 0 then 1 else 16 * Power(n - 1)
  }

  // ---------- one element ----------

  /** The number that a numeral stands for, most significant digit first. */
  function Number(s: string): nat
    requires IsHex(s)
  {
    if s == "" then 0 else 16 * Number(s[..|s| - 1]) + HexCharToInt(s[|s| - 1]).value
  }

  /** The last n digits of the numeral of val; a negative val is taken in two's complement. */
  function Numeral(val: int, n: nat, digits: string): (r: string)
    requires |digits| == 16
    ensures |r| == n
    decreases n
  {
    if n == 0 then "" else Numeral(val / 16, n - 1, digits) + [digits[val % 16]]
  }

  lemma DivMod(val: int, m: int)
    requires m > 0
    ensures val % (16 * m) == 16 * (val / 16 % m) + val % 16
  {
    var q, r := val / 16 / m, val / 16 % m;
    assert val / 16 == m * q + r;
    assert val == 16 * (m * q + r) + val % 16 == 16 * m * q + (16 * r + val % 16);
    ModIs(val, 16 * m, q, 16 * r + val % 16);
  }

  lemma ModIs(a: int, m: int, q: int, r: int)
    requires 0 <= r < m && a == m * q + r
    ensures a % m == r && a / m == q
  {
    var d, e := a / m - q, r - a % m;
    assert m * d == e by {
      assert m * (a / m) + a % m == a;
      assert m * d == m * (a / m) - m * q;
    }
    Multiple(m, d);
  }

  lemma Multiple(m: int, d: int)
    requires m > 0
    ensures d > 0 ==> m * d >= m
    ensures d < 0 ==> m * d <= -m
    ensures d == 0 ==> m * d == 0
  {
  }

  /** A numeral of n digits stands for the value modulo 16 to the n. */
  lemma {:induction false} NumeralNumber(val: int, n: nat, digits: string)
    requires IsDigitTable(digits)
    ensures IsHex(Numeral(val, n, digits)) && Number(Numeral(val, n, digits)) == val % Power(n)
    decreases n
  {

    if n > 0 {
      var high, low := Numeral(val / 16, n - 1, digits), val % 16;
      NumeralNumber(val / 16, n - 1, digits);
      IsHexNext(high, digits[low]);
      DivMod(val, Power(n - 1));
    }
  }

  /** The numeral of a number is its text, in the digits of the table. */
  lemma {:induction false} NumberNumeral(s: string, digits: string)
    requires IsHex(s) && |digits| == 16
    ensures Number(s) < Power(|s|) && Numeral(Number(s), |s|, digits) == Redigit(s, digits)
  {
    if s == "" {
    } else {
      var front, last := s[..|s| - 1], HexCharToInt(s[|s| - 1]).value;
      NumberNumeral(front, digits);
      ModIs(Number(s), 16, Number(front), last);
      assert Redigit(s, digits) == Redigit(front, digits) + [digits[last]];
    }
  }

  method EncodeOne(val: int, width: nat, digits: string) returns (out: string)
    requires |digits| == 16
    ensures out == Numeral(val, 2 * width, digits)
  {
    var numHexDigits := 2 * width;
    var res := new char[numHexDigits];
    var p, rest := numHexDigits, val;
    for i := 0 to numHexDigits
      invariant p == numHexDigits - i
      invariant Numeral(val, numHexDigits, digits) == Numeral(rest, p, digits) + res[p..]
    {
      ghost var written := res[p..];
      p := p - 1;
      res[p] := digits[rest % 16];
      assert res[p..] == [digits[rest % 16]] + written;
      rest := rest / 16;
    }
    out := res[..];
  }

  /** Reads one element; the addition is in the element type, so it is taken modulo its range. */
  method DecodeOne(s: string, first: nat, width: nat) returns (next: nat, res: nat, error: Option<Error>)
    requires first <= |s|
    ensures first <= next <= |s| && next - first <= 2 * width && IsHex(s[first..next])
    ensures error.None? ==> next == first + 2 * width && res == Number(s[first..next])
    ensures error.Some? ==> next < first + 2 * width
    ensures error.Some? ==> error.value == if next == |s| then NotEnoughInput else NonHexInput(s[next])
    ensures error.Some? && next < |s| ==> HexCharToInt(s[next]).None?
  {
    next, res, error := first, 0, None;
    for i := 0 to 2 * width
      invariant next == first + i <= |s| && IsHex(s[first..next]) && error == None
      invariant res == Number(s[first..next]) < Power(i)
    {
      if next == |s| {
        error := Some(NotEnoughInput);
        return;
      }
      var v := HexCharToInt(s[next]);
      if v.None? {
        error := Some(NonHexInput(s[next]));
        return;
      }
      IsHexNext(s[first..next], s[next]);
      assert s[first..next + 1] == s[first..next] + [s[next]];
      PowerGrows(i + 1, 2 * width);
      NoWrap(res, v.value, i, 2 * width);
      res := (16 * res + v.value) % Power(2 * width);
      next := next + 1;
    }
  }

  lemma IsHexNext(s: string, c: char)
    requires IsHex(s) && HexCharToInt(c).Some?
    ensures IsHex(s + [c]) && Number(s + [c]) == 16 * Number(s) + HexCharToInt(c).value
  {
    assert (s + [c])[..|s|] == s;
  }

  lemma {:induction false} PowerGrows(m: nat, n: nat)
    requires m <= n
    ensures Power(m) <= Power(n)
  {
    if m < n {
      PowerGrows(m, n - 1);
    }
  }

  lemma NoWrap(res: nat, v: nat, i: nat, n: nat)
    requires res < Power(i) && v < 16 && Power(i + 1) <= Power(n)
    ensures 16 * res + v < Power(i + 1) && (16 * res + v) % Power(n) == 16 * res + v
  {
    ModIs(16 * res + v, Power(n), 0, 16 * res + v);
  }

  // ---------- whole texts ----------

  function Encoded(vals: seq<int>, width: nat, digits: string): string
    requires |digits| == 16
  {
    if vals == [] then "" else Numeral(vals[0], 2 * width, digits) + Encoded(vals[1..], width, digits)
  }

  /** Where decoding has to stop: the first character that is not a digit. */
  function FirstBad(s: string): (k: nat)
    ensures k <= |s| && IsHex(s[..k]) && (k < |s| ==> HexCharToInt(s[k]).None?)
  {
    if s == "" || HexCharToInt(s[0]).None? then 0
    else
      assert s[..1 + FirstBad(s[1..])] == [s[0]] + s[1..][..FirstBad(s[1..])];
      1 + FirstBad(s[1..])
  }

  /** The elements that the complete groups of n digits stand for. */
  function Groups(s: string, n: nat): seq<nat>
    requires n > 0 && IsHex(s)
  {
    if |s| < n then [] else [Number(s[..n])] + Groups(s[n..], n)
  }

  /** What decoding a text gives: the groups before the first bad character, and an error for that
      character or for a group that is cut short. */
  function Unhexed(s: string, width: nat): Decoded
    requires width > 0
  {
    var k := FirstBad(s);
    Decoded(Groups(s[..k], 2 * width),
            if k < |s| then Some(NonHexInput(s[k])) else if |s| % (2 * width) != 0 then Some(NotEnoughInput) else None)
  }

  method HexText(vals: seq<int>, width: nat, digits: string) returns (out: string)
    requires |digits| == 16
    ensures out == Encoded(vals, width, digits)
  {
    out := "";
    var first := 0;
    while first != |vals|
      invariant 0 <= first <= |vals|
      invariant out + Encoded(vals[first..], width, digits) == Encoded(vals, width, digits)
      decreases |vals| - first
    {
      ghost var done, tail := out, Encoded(vals[first + 1..], width, digits);
      assert vals[first..][0] == vals[first] && vals[first..][1..] == vals[first + 1..];
      var one := EncodeOne(vals[first], width, digits);
      out := out + one;
      Associative(done, one, tail);
      first := first + 1;
    }
    assert out + "" == out;
  }

  lemma {:induction false} FirstBadIs(s: string, m: nat)
    requires m <= |s| && IsHex(s[..m])
    ensures FirstBad(s) >= m
    ensures m == |s| || HexCharToInt(s[m]).None? ==> FirstBad(s) == m
  {
    if m > 0 {
      assert s[0] == s[..m][0] && s[1..][..m - 1] == s[..m][1..];
      FirstBadIs(s[1..], m - 1);
    }
  }

  lemma IsHexJoin(s: string, first: nat, next: nat)
    requires first <= next <= |s| && IsHex(s[..first]) && IsHex(s[first..next])
    ensures IsHex(s[..next])
  {
    forall i | 0 <= i < next ensures HexCharToInt(s[..next][i]).Some? {
      assert i < first ==> s[..first][i] == s[i];
      assert i >= first ==> s[first..next][i - first] == s[i];
    }
  }

  /** The decoder has read whole groups up to first. */
  ghost predicate Reading(s: string, n: nat, first: nat, values: seq<nat>) {
    && n > 0 && first <= FirstBad(s) && first == n * |values|
    && values + Groups(s[first..FirstBad(s)], n) == Groups(s[..FirstBad(s)], n)
  }

  lemma ReadingStart(s: string, n: nat)
    requires n > 0
    ensures Reading(s, n, 0, [])
  {
    hide FirstBad, Groups;
    assert s[0..FirstBad(s)] == s[..FirstBad(s)];
    assert [] + Groups(s[..FirstBad(s)], n) == Groups(s[..FirstBad(s)], n);
  }

  lemma ReadingNext(s: string, n: nat, first: nat, values: seq<nat>)
    requires Reading(s, n, first, values) && first + n <= |s| && IsHex(s[first..first + n])
    ensures Reading(s, n, first + n, values + [Number(s[first..first + n])])
  {
    hide FirstBad, Groups, Number;
    var k, next := FirstBad(s), first + n;
    PrefixIsHex(s[..k], first);
    assert s[..k][..first] == s[..first];
    IsHexJoin(s, first, next);
    FirstBadIs(s, next);
    assert s[first..k][..n] == s[first..next] && s[first..k][n..] == s[next..k];
    GroupsStep(s[first..k], n);
    Prepended(values, Number(s[first..next]), Groups(s[next..k], n));
    NextMultiple(n, |values|);
  }

  /** The decoder stops, at a bad character or at the end of the text. */
  lemma ReadingStop(s: string, n: nat, first: nat, values: seq<nat>, next: nat)
    requires Reading(s, n, first, values) && first <= next <= |s| && next < first + n && IsHex(s[first..next])
    requires next == |s| || HexCharToInt(s[next]).None?
    ensures FirstBad(s) == next && values == Groups(s[..next], n)
    ensures next == |s| ==> |s| % n == next - first
  {
    hide FirstBad, Groups;
    var k := FirstBad(s);
    PrefixIsHex(s[..k], first);
    assert s[..k][..first] == s[..first];
    IsHexJoin(s, first, next);
    FirstBadIs(s, next);
    GroupsShort(s[first..k], n);
    assert values + [] == values;
    ModIs(next, n, |values|, next - first);
  }

  lemma PrefixIsHex(s: string, n: nat)
    requires IsHex(s) && n <= |s|
    ensures IsHex(s[..n])
  {
  }

  method Unhex(s: string, width: nat) returns (values: seq<nat>, error: Option<Error>)
    requires width > 0
    ensures Decoded(values, error) == Unhexed(s, width)
  {
    hide Reading, Groups, FirstBad, Number, IsHex;
    var first := 0;
    values, error := [], None;
    ReadingStart(s, 2 * width);
    while first != |s|
      invariant 0 <= first <= |s| && error == None && Reading(s, 2 * width, first, values)
      decreases |s| - first
    {
      var next, res;
      next, res, error := DecodeOne(s, first, width);
      if error.Some? {
        ReadingStop(s, 2 * width, first, values, next);
        return;
      }
      ReadingNext(s, 2 * width, first, values);
      values := values + [res];
      first := next;
    }
    NothingIsHex(s, first);
    ReadingStop(s, 2 * width, first, values, first);
  }

  lemma NothingIsHex(s: string, first: nat)
    requires first <= |s|
    ensures IsHex(s[first..first])
  {
  }

  lemma Prepended(values: seq<nat>, v: nat, rest: seq<nat>)
    ensures values + ([v] + rest) == values + [v] + rest
  {
  }

  lemma GroupsShort(s: string, n: nat)
    requires n > |s| && IsHex(s)
    ensures Groups(s, n) == []
  {
  }

  lemma GroupsStep(s: string, n: nat)
    requires 0 < n <= |s| && IsHex(s)
    ensures IsHex(s[..n]) && IsHex(s[n..]) && Groups(s, n) == [Number(s[..n])] + Groups(s[n..], n)
  {
  }

  lemma NextMultiple(n: int, q: int)
    ensures n * q + n == n * (q + 1)
  {
  }

  // ---------- round trips ----------

  /** Decoding meets no error exactly for whole groups of digits; otherwise the first bad character
      decides which error it is. */
  lemma UnhexSucceedsExactly(s: string, width: nat)
    requires width > 0
    ensures Unhexed(s, width).error == None <==> IsHex(s) && |s| % (2 * width) == 0
    ensures Unhexed(s, width).error == Some(NotEnoughInput) <==> IsHex(s) && |s| % (2 * width) != 0
  {
    assert s[..|s|] == s;
    if IsHex(s) {
      FirstBadIs(s, |s|);
    }
  }

  function Wrapped(vals: seq<int>, m: nat): (r: seq<nat>)
    requires m > 0
    ensures |r| == |vals| && forall i | 0 <= i < |r| :: r[i] == vals[i] % m
  {
    seq(|vals|, i requires 0 <= i < |vals| => vals[i] % m)
  }

  lemma {:induction false} EncodedGroups(vals: seq<int>, width: nat, digits: string)
    requires width > 0 && IsDigitTable(digits)
    ensures IsHex(Encoded(vals, width, digits)) && |Encoded(vals, width, digits)| == 2 * width * |vals|
    ensures Groups(Encoded(vals, width, digits), 2 * width) == Wrapped(vals, Power(2 * width))
  {
    hide Number, Numeral, Groups;
    var n := 2 * width;
    if vals == [] {
      GroupsShort("", n);
    } else {
      var one, rest := Numeral(vals[0], n, digits), Encoded(vals[1..], width, digits);
      NumeralNumber(vals[0], n, digits);
      EncodedGroups(vals[1..], width, digits);
      NextMultiple(n, |vals| - 1);
      assert (one + rest)[..n] == one && (one + rest)[n..] == rest;
      GroupsStep(one + rest, n);
      assert Wrapped(vals, Power(n)) == [vals[0] % Power(n)] + Wrapped(vals[1..], Power(n));
    }
  }

  /** Decoding what was encoded gives the elements back, modulo the range of the element type. */
  lemma UnhexOfHex(vals: seq<int>, width: nat, digits: string)
    requires width > 0 && IsDigitTable(digits)
    ensures Unhexed(Encoded(vals, width, digits), width) == Decoded(Wrapped(vals, Power(2 * width)), None)
  {
    hide Encoded, Groups;
    var s := Encoded(vals, width, digits);
    EncodedGroups(vals, width, digits);
    assert s[..|s|] == s;
    FirstBadIs(s, |s|);
    ModIs(|s|, 2 * width, |vals|, 0);
  }

  /** Unsigned elements come back as they were, with either table. */
  lemma UnsignedRoundTrip(vals: seq<nat>, width: nat)
    requires width > 0 && forall i | 0 <= i < |vals| :: vals[i] < Power(2 * width)
    ensures Unhexed(Encoded(vals, width, UPPER), width) == Decoded(vals, None)
    ensures Unhexed(Encoded(vals, width, LOWER), width) == Decoded(vals, None)
  {
    var m := Power(2 * width);
    TablesAreDigits();
    UnhexOfHex(vals, width, UPPER);
    UnhexOfHex(vals, width, LOWER);
    forall i | 0 <= i < |vals| ensures vals[i] % m == vals[i] {
      ModIs(vals[i], m, 0, vals[i]);
    }
    assert Wrapped(vals, m) == vals;
  }

  lemma {:induction false} GroupsEncoded(s: string, width: nat, digits: string)
    requires width > 0 && |digits| == 16 && IsHex(s) && |s| % (2 * width) == 0
    ensures Encoded(Groups(s, 2 * width), width, digits) == Redigit(s, digits)
  {
    hide Number, Numeral;
    var n := 2 * width;
    if |s| < n {
      ModIs(|s|, n, 0, |s|);
    } else {
      var q := |s| / n;
      ModIs(|s| - n, n, q - 1, 0);
      GroupsEncoded(s[n..], width, digits);
      NumberNumeral(s[..n], digits);
      assert Groups(s, n)[1..] == Groups(s[n..], n);
      assert Redigit(s, digits) == Redigit(s[..n], digits) + Redigit(s[n..], digits);
    }
  }

  function ToUpper(c: char): char {
    if 'a' <= c <= 'z' then 'A' + (c - 'a') else c
  }

  function ToLower(c: char): char {
    if 'A' <= c <= 'Z' then 'a' + (c - 'A') else c
  }

  lemma RedigitIsCase(s: string)
    requires IsHex(s)
    ensures forall i | 0 <= i < |s| :: Redigit(s, UPPER)[i] == ToUpper(s[i]) && Redigit(s, LOWER)[i] == ToLower(s[i])
  {
    forall i | 0 <= i < |s| ensures UPPER[HexCharToInt(s[i]).value] == ToUpper(s[i]) && LOWER[HexCharToInt(s[i]).value] == ToLower(s[i]) {
      var c, v := s[i], HexCharToInt(s[i]).value;
      if v < 10 {
        assert UPPER[v] == LOWER[v] == "0123456789"[v] == '0' + v as char;
      } else {
        assert UPPER[v] == "ABCDEF"[v - 10] == 'A' + (v - 10) as char;
        assert LOWER[v] == "abcdef"[v - 10] == 'a' + (v - 10) as char;
      }
    }
  }

  /** Encoding what was decoded gives the text back in the case of the table. */
  lemma HexOfUnhex(s: string, width: nat)
    requires width > 0 && IsHex(s) && |s| % (2 * width) == 0
    ensures var r := Encoded(Unhexed(s, width).values, width, UPPER);
      |r| == |s| && forall i | 0 <= i < |s| :: r[i] == ToUpper(s[i])
    ensures var r := Encoded(Unhexed(s, width).values, width, LOWER);
      |r| == |s| && forall i | 0 <= i < |s| :: r[i] == ToLower(s[i])
  {
    hide Encoded, Groups;
    assert s[..|s|] == s;
    FirstBadIs(s, |s|);
    GroupsEncoded(s, width, UPPER);
    GroupsEncoded(s, width, LOWER);
    RedigitIsCase(s);
  }
}
