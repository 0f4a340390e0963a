/** Bytes as base-62 numerals: what signal-tty.go uses of math/big. */
module Base62 {
  import opened Bytes

  // ------------------------------------------------------------------ positional numerals

  // Most significant digit first; the numeral of 0 is empty.
  function Digits(n: nat, base: nat): (ds: seq<nat>)
    requires base >= 2
    ensures forall i :: 0 <= i < |ds| ==> ds[i] < base
    ensures ds == [] <==> n == 0
    decreases n
  {
    if n == 0 then [] else
      assert n / base < n by { Shrinks(n, base); }
      Digits(n / base, base) + [n % base]
  }

  lemma Shrinks(n: nat, base: nat)
    requires n >= 1 && base >= 2
    ensures n / base < n
  {
    assert n == base * (n / base) + n % base;
    if n / base >= n { MulGap(n / base, 1, base); }
  }

  function Number(ds: seq<nat>, base: nat): nat {
    if ds == [] then 0 else Number(ds[..|ds| - 1], base) * base + ds[|ds| - 1]
  }

  function Trim(ds: seq<nat>): seq<nat> {
    if ds == [] || ds[0] != 0 then ds else Trim(ds[1..])
  }

  lemma NumberSnoc(ds: seq<nat>, d: nat, base: nat)
    ensures Number(ds + [d], base) == Number(ds, base) * base + d
  {
    assert (ds + [d])[..|ds|] == ds;
  }

  lemma {:induction false} NumberOfDigits(n: nat, base: nat)
    requires base >= 2
    ensures Number(Digits(n, base), base) == n
    decreases n
  {
    if n > 0 {
      var q, d := n / base, n % base;
      Shrinks(n, base);
      NumberOfDigits(q, base);
      NumberSnoc(Digits(q, base), d, base);
      DivMod(n, base);
    }
  }

  lemma DivMod(n: nat, base: nat)
    requires base >= 2
    ensures n / base * base + n % base == n
  {
  }

  lemma DivOfSnoc(m: nat, base: nat, d: nat)
    requires base >= 2 && d < base
    ensures (m * base + d) / base == m && (m * base + d) % base == d
  {
    var n := m * base + d;
    QuotientUnique(base, m, d, n / base, n % base);
  }

  lemma DigitsSnoc(m: nat, base: nat, d: nat)
    requires base >= 2 && d < base
    ensures Digits(m * base + d, base) == if m == 0 && d == 0 then [] else Digits(m, base) + [d]
  {
    DivOfSnoc(m, base, d);
    if m * base + d == 0 {
      MulAtLeast(m, base);
    }
  }

  lemma MulAtLeast(m: nat, base: nat)
    requires base >= 1
    ensures m * base >= m
  {
  }

  lemma {:induction false} TrimSnoc(ds: seq<nat>, d: nat)
    ensures Trim(ds + [d]) == if Trim(ds) == [] && d == 0 then [] else Trim(ds) + [d]
  {
    if ds == [] {
      assert ds + [d] == [d];
    } else {
      TrimSnoc(ds[1..], d);
      assert (ds + [d])[1..] == ds[1..] + [d];
    }
  }

  /** Reading a numeral and writing it again loses exactly the leading zeros. */
  lemma {:induction false} DigitsOfNumber(ds: seq<nat>, base: nat)
    requires base >= 2 && forall i :: 0 <= i < |ds| ==> ds[i] < base
    ensures Digits(Number(ds, base), base) == Trim(ds)
  {
    if ds != [] {
      var init, d := ds[..|ds| - 1], ds[|ds| - 1];
      DigitsOfNumber(init, base);
      DigitsSnoc(Number(init, base), base, d);
      TrimSnoc(init, d);
      assert init + [d] == ds;
    }
  }

  // ------------------------------------------------------------------ base-62 text of a big integer

  const BASE := 62

  // 0-9, then a-z, then A-Z, as math/big writes bases above 36.
  function DigitChar(d: nat): char
    requires d < BASE
  {
    if d < 10 then ('0' as int + d) as char
    else if d < 36 then ('a' as int + d - 10) as char
    else ('A' as int + d - 36) as char
  }

  function CharDigit(c: char): (d: Option<nat>)
    ensures d.Some? ==> d.value < BASE
  {
    if '0' <= c <= '9' then Some(c as int - '0' as int)
    else if 'a' <= c <= 'z' then Some(c as int - 'a' as int + 10)
    else if 'A' <= c <= 'Z' then Some(c as int - 'A' as int + 36)
    else None
  }

  function Chars(ds: seq<nat>): (s: string)
    requires forall i :: 0 <= i < |ds| ==> ds[i] < BASE
    ensures |s| == |ds|
  {
    if ds == [] then "" else [DigitChar(ds[0])] + Chars(ds[1..])
  }

  function ReadDigits(s: string): Option<seq<nat>> {
    if s == "" then Some([])
    else
      var d, rest := CharDigit(s[0]), ReadDigits(s[1..]);
      if d.None? || rest.None? then None else Some([d.value] + rest.value)
  }

  // `Text(62)`
  function Text(n: nat): string {
    if n == 0 then "0" else Chars(Digits(n, BASE))
  }

  // `SetString(s, 62)` followed by the absolute value: an optional sign and at least one digit.
  function SetString(s: string): Option<nat> {
    var t := if s != "" && (s[0] == '+' || s[0] == '-') then s[1..] else s;
    var ds := ReadDigits(t);
    if t == "" || ds.None? then None else Some(Number(ds.value, BASE))
  }

  // The alphabet, in order.
  lemma Alphabet()
    ensures CharDigit('0') == Some(0) && CharDigit('a') == Some(10) && CharDigit('A') == Some(36)
    ensures CharDigit('9') == Some(9) && CharDigit('z') == Some(35) && CharDigit('Z') == Some(61)
    ensures forall c, d :: Alphanumeric(c) && d as int == c as int + 1 && Alphanumeric(d) ==>
                             CharDigit(d).value == CharDigit(c).value + 1
  {
  }

  lemma DigitReadsBack(d: nat)
    requires d < BASE
    ensures CharDigit(DigitChar(d)) == Some(d)
  {
  }

  lemma {:induction false} ReadsBack(ds: seq<nat>)
    requires forall i :: 0 <= i < |ds| ==> ds[i] < BASE
    ensures ReadDigits(Chars(ds)) == Some(ds)
  {
    if ds != [] {
      var c, cs := DigitChar(ds[0]), Chars(ds[1..]);
      DigitReadsBack(ds[0]);
      ReadsBack(ds[1..]);
      assert ([c] + cs)[0] == c && ([c] + cs)[1..] == cs;
      assert ds == [ds[0]] + ds[1..];
    }
  }

  lemma {:induction false} CharsAt(ds: seq<nat>, i: nat)
    requires (forall j :: 0 <= j < |ds| ==> ds[j] < BASE) && i < |ds|
    ensures Chars(ds)[i] == DigitChar(ds[i])
  {
    if i > 0 { CharsAt(ds[1..], i - 1); }
  }

  lemma NoNewline(ds: seq<nat>)
    requires forall i :: 0 <= i < |ds| ==> ds[i] < BASE
    ensures '\n' !in Chars(ds)
  {
    forall i | 0 <= i < |ds| ensures Chars(ds)[i] != '\n' {
      CharsAt(ds, i);
      DigitReadsBack(ds[i]);
    }
  }

  lemma NoSign(ds: seq<nat>)
    requires ds != [] && forall i :: 0 <= i < |ds| ==> ds[i] < BASE
    ensures Chars(ds)[0] != '+' && Chars(ds)[0] != '-'
  {
    CharsAt(ds, 0);
    DigitReadsBack(ds[0]);
  }

  lemma TextRoundTrip(n: nat)
    ensures SetString(Text(n)) == Some(n)
    ensures '\n' !in Text(n)
  {
    var ds := if n == 0 then [0] else Digits(n, BASE);
    assert Text(n) == Chars(ds);
    ReadsBack(ds);
    NoNewline(ds);
    NoSign(ds);
    assert Number(ds, BASE) == n by {
      if n > 0 { NumberOfDigits(n, BASE); }
    }
  }

  lemma {:induction false} ReadDigitsIff(s: string)
    ensures ReadDigits(s).Some? <==> forall i :: 0 <= i < |s| ==> CharDigit(s[i]).Some?
  {
    if s != "" {
      ReadDigitsIff(s[1..]);
      assert s == [s[0]] + s[1..];
    }
  }

  // A sign, if there is one, is skipped.
  function Unsigned(s: string): string {
    if s != "" && (s[0] == '+' || s[0] == '-') then s[1..] else s
  }

  predicate Alphanumeric(c: char) {
    '0' <= c <= '9' || 'a' <= c <= 'z' || 'A' <= c <= 'Z'
  }

  /** Which texts are numerals, of all there are: those of at least one digit or letter and nothing
      else, behind at most one sign, which does not change what is read. */
  lemma ReadableIff(s: string)
    ensures SetString(s).Some? <==>
            Unsigned(s) != "" && forall i :: 0 <= i < |Unsigned(s)| ==> Alphanumeric(Unsigned(s)[i])
    ensures SetString(s).Some? ==> SetString(s) == SetString(Unsigned(s))
  {
    ReadDigitsIff(Unsigned(s));
    assert forall i :: 0 <= i < |Unsigned(s)| ==> (CharDigit(Unsigned(s)[i]).Some? <==> Alphanumeric(Unsigned(s)[i]));
  }

  // ------------------------------------------------------------------ bytes to text and back

  function ToNumber(bs: seq<byte>): nat {
    Number(bs, 256)
  }

  // `Bytes()` of a big integer has no leading zero.
  function ToBytes(n: nat): seq<byte> {
    Digits(n, 256)
  }

  function EncodeBytes(bs: seq<byte>): string {
    Text(ToNumber(bs))
  }

  function DecodeBytes(s: string): Option<seq<byte>> {
    var n := SetString(s);
    if n.None? then None else Some(ToBytes(n.value))
  }

  /** Bytes survive the trip through a base-62 line exactly when they do not start with a zero, and
      the line holds no newline. */
  lemma BytesRoundTrip(bs: seq<byte>)
    ensures DecodeBytes(EncodeBytes(bs)) == Some(bs) <==> bs == [] || bs[0] != 0
    ensures '\n' !in EncodeBytes(bs)
  {
    TextRoundTrip(ToNumber(bs));
    DigitsOfNumber(bs, 256);
    TrimIsIdentity(bs);
  }

  lemma {:induction false} TrimIsIdentity(ds: seq<nat>)
    ensures |Trim(ds)| <= |ds|
    ensures Trim(ds) == ds <==> ds == [] || ds[0] != 0
  {
    if ds != [] { TrimIsIdentity(ds[1..]); }
  }
}
