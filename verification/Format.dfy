/** Printing integers (lib/stdio.c, `format_integer`) and reading them back (lib/stdlib.c, `atoi`). */
module Format {
  import opened Common
  import A = Arithmetic

  const BUF_SIZE: nat := 64
  const UINTMAX_RANGE: nat := 0x1_0000_0000_0000_0000

  /** The integer bases, with their digits, the character after 0 in a prefix, and the size of a group. */
  datatype Base = Decimal | Octal | LowerHex | UpperHex

  /** Flags and sizes of a conversion; a negative precision means none was given. */
  datatype Conversion = Conversion(
    minus: bool, plus: bool, space: bool, pound: bool, zero: bool, group: bool, width: int, precision: int)

  function Shrunk(b: Base, v: nat): nat {
    match b
    case Decimal => v / 10
    case Octal => v / 8
    case _ => v / 16
  }

  function LastDigit(b: Base, v: nat): (r: nat)
    ensures r < 16 && (b.Decimal? ==> r < 10)
  {
    match b
    case Decimal => v % 10
    case Octal => v % 8
    case _ => v % 16
  }

  function DigitChar(b: Base, d: nat): char
    requires d < 16
  {
    if b.UpperHex? then "0123456789ABCDEF"[d] else "0123456789abcdef"[d]
  }

  // ---------- The text of a conversion ----------

  function Dup(ch: char, cnt: int): (r: string)
    ensures |r| == if cnt > 0 then cnt else 0
    decreases cnt
  {
    if cnt <= 0 then "" else [ch] + Dup(ch, cnt - 1)
  }

  predicate CommaAt(b: Base, group: bool, cnt: nat) {
    group && cnt > 0 && (if b.Decimal? || b.Octal? then cnt % 3 == 0 else cnt % 4 == 0)
  }

  /** The digits of v, most significant first, when cnt digits are already to its right. */
  function Digits(b: Base, v: nat, group: bool, cnt: nat): string
    decreases v
  {
    if v == 0 then ""
    else
      var comma := if CommaAt(b, group, cnt) then "," else "";
      Digits(b, Shrunk(b, v), group, cnt + 1) + [DigitChar(b, LastDigit(b, v))] + comma
  }

  /** Digits filled up to the precision, and for octal with # a leading zero. */
  function WithZeros(b: Base, digits: string, c: Conversion): string {
    var precision := if c.precision < 0 then 1 else c.precision;
    var filled := Dup('0', Min(precision, BUF_SIZE - 1) - |digits|) + digits;
    if c.pound && b.Octal? && (filled == "" || filled[0] != '0') then "0" + filled else filled
  }

  function Body(b: Base, v: nat, c: Conversion): string {
    WithZeros(b, Digits(b, v, c.group, 0), c)
  }

  function Sign(isSigned: bool, negative: bool, c: Conversion): string {
    if !isSigned then ""
    else if c.plus then (if negative then "-" else "+")
    else if c.space then (if negative then "-" else " ")
    else if negative then "-"
    else ""
  }

  function Prefix(b: Base, v: nat, c: Conversion): string {
    if c.pound && v > 0 && b.LowerHex? then "0x" else if c.pound && v > 0 && b.UpperHex? then "0X" else ""
  }

  /** Sign, prefix and digits in a field: pad spaces before, zeros in between, or spaces behind. */
  function Arranged(c: Conversion, sign: string, prefix: string, body: string): string {
    var pad := c.width - |body| - |prefix| - |sign|;
    (if !c.minus && !c.zero then Dup(' ', pad) else "")
    + sign + prefix
    + (if c.zero then Dup('0', pad) else "")
    + body
    + (if c.minus then Dup(' ', pad) else "")
  }

  /** What `format_integer` emits. */
  function Text(v: nat, isSigned: bool, negative: bool, b: Base, c: Conversion): string {
    Arranged(c, Sign(isSigned, negative, c), Prefix(b, v, c), Body(b, v, c))
  }

  // ---------- format_integer ----------

  function Reversed(s: seq<char>): (r: seq<char>)
    ensures |r| == |s|
  {
    if s == [] then [] else [s[|s| - 1]] + Reversed(s[..|s| - 1])
  }

  function Pow8(n: nat): nat {
    if n == 0 then 1 else 8 * Pow8(n - 1)
  }

  /** No base needs more than 22 digits for 64 bits. */
  lemma DigitsEnough() returns (n: nat)
    ensures n <= 22 && Pow8(n) >= UINTMAX_RANGE
  {
    assert Pow8(8) == 0x100_0000;
    assert Pow8(16) == 0x1_0000_0000_0000;
    n := 22;
  }

  method Push(buf: array<char>, cp: nat, ch: char)
    requires cp < buf.Length
    modifies buf
    ensures buf[..cp] == old(buf[..cp]) && buf[cp] == ch
    ensures Reversed(buf[..cp + 1]) == [ch] + Reversed(old(buf[..cp]))
  {
    buf[cp] := ch;
    assert buf[..cp + 1][..cp] == old(buf[..cp]);
  }

  function Digit(b: Base, v: nat, group: bool, cnt: nat): string {
    [DigitChar(b, LastDigit(b, v))] + (if CommaAt(b, group, cnt) then "," else "")
  }

  /** One digit, after a separator where one belongs. */
  method PutDigit(buf: array<char>, at: nat, v: nat, b: Base, group: bool, cnt: nat) returns (cp: nat)
    requires at + 2 <= buf.Length
    modifies buf
    ensures at < cp <= at + 2 && Reversed(buf[..cp]) == Digit(b, v, group, cnt) + Reversed(old(buf[..at]))
  {
    cp := at;
    if CommaAt(b, group, cnt) {
      Push(buf, cp, ',');
      cp := cp + 1;
    }
    Push(buf, cp, DigitChar(b, LastDigit(b, v)));
    cp := cp + 1;
  }

  lemma Shrinks(b: Base, v: nat, n: nat)
    requires 0 < v < Pow8(n)
    ensures n > 0 && Shrunk(b, v) < Pow8(n - 1)
  {
  }

  lemma MoreDigits(b: Base, v: nat, group: bool, cnt: nat, tail: string)
    requires v > 0
    ensures Digits(b, v, group, cnt) + tail ==
              Digits(b, Shrunk(b, v), group, cnt + 1) + (Digit(b, v, group, cnt) + tail)
  {
  }

  /** The digits go into the buffer from the last to the first; 22 of them, with separators, fit. */
  method PutDigits(buf: array<char>, v: nat, b: Base, group: bool) returns (cp: nat)
    requires buf.Length == BUF_SIZE && v < UINTMAX_RANGE
    modifies buf
    ensures cp <= 44 && Reversed(buf[..cp]) == Digits(b, v, group, 0)
  {
    cp := 0;
    var digitCnt := 0;
    var value: nat := v;
    ghost var n := DigitsEnough();
    while value > 0
      invariant digitCnt <= n && value < Pow8(n - digitCnt) && cp <= 2 * digitCnt
      invariant Digits(b, v, group, 0) == Digits(b, value, group, digitCnt) + Reversed(buf[..cp])
    {
      Shrinks(b, value, n - digitCnt);
      MoreDigits(b, value, group, digitCnt, Reversed(buf[..cp]));
      cp := PutDigit(buf, cp, value, b, group, digitCnt);
      value := Shrunk(b, value);
      digitCnt := digitCnt + 1;
    }
  }

  /** Zeros up to the precision, then the leading zero of octal: the buffer is never overrun. */
  method PutZeros(buf: array<char>, at: nat, b: Base, c: Conversion) returns (cp: nat)
    requires buf.Length == BUF_SIZE && at <= 44
    modifies buf
    ensures cp <= BUF_SIZE
    ensures var digits := Reversed(old(buf[..at]));
            Reversed(buf[..cp]) == WithZeros(b, digits, c)
  {
    cp := at;
    var precision := if c.precision < 0 then 1 else c.precision;
    while cp < precision && cp < BUF_SIZE - 1
      invariant at <= cp <= BUF_SIZE - 1
      invariant Dup('0', Min(precision, BUF_SIZE - 1) - at) + Reversed(old(buf[..at])) ==
                Dup('0', Min(precision, BUF_SIZE - 1) - cp) + Reversed(buf[..cp])
    {
      OneMore('0', Min(precision, BUF_SIZE - 1) - cp, Reversed(buf[..cp]));
      Push(buf, cp, '0');
      cp := cp + 1;
    }
    if c.pound && b.Octal? && (cp == 0 || buf[cp - 1] != '0') {
      Push(buf, cp, '0');
      cp := cp + 1;
    }
  }

  lemma OneMore(ch: char, n: int, tail: string)
    requires n > 0
    ensures Dup(ch, n) + tail == Dup(ch, n - 1) + ([ch] + tail)
  {
    if n > 1 {
      OneMore(ch, n - 1, tail);
      assert Dup(ch, n) + tail == [ch] + (Dup(ch, n - 1) + tail);
      assert Dup(ch, n - 1) + ([ch] + tail) == [ch] + (Dup(ch, n - 2) + ([ch] + tail));
    }
  }

  /** `output_dup` */
  method OutputDup(ch: char, cnt: int, out: string) returns (r: string)
    ensures r == out + Dup(ch, cnt)
  {
    r := out;
    var left := cnt;
    while left > 0
      invariant r + Dup(ch, left) == out + Dup(ch, cnt)
      decreases left
    {
      r := r + [ch];
      left := left - 1;
    }
  }

  method OutputDupIf(wanted: bool, ch: char, cnt: int, out: string) returns (r: string)
    ensures r == out + if wanted then Dup(ch, cnt) else ""
  {
    r := out;
    if wanted {
      r := OutputDup(ch, cnt, r);
    }
  }

  /** `format_integer`, appending to the output. */
  method FormatInteger(v: nat, isSigned: bool, negative: bool, b: Base, c: Conversion, out: string) returns (r: string)
    requires v < UINTMAX_RANGE
    ensures r == out + Text(v, isSigned, negative, b, c)
  {
    var buf := new char[BUF_SIZE];
    var cp := PutDigits(buf, v, b, c.group);
    cp := PutZeros(buf, cp, b, c);
    r := EmitAll(buf, cp, c, Sign(isSigned, negative, c), Prefix(b, v, c), out);
  }

  method EmitAll(buf: array<char>, cp: nat, c: Conversion, sign: string, prefix: string, out: string)
      returns (r: string)
    requires cp <= buf.Length
    ensures r == out + Arranged(c, sign, prefix, Reversed(buf[..cp]))
  {
    var pad := c.width - cp - |prefix| - |sign|;
    var r0 := OutputDupIf(!c.minus && !c.zero, ' ', pad, out);
    var r1 := OutputDupIf(c.zero, '0', pad, r0 + sign + prefix);
    var r2 := Emit(buf, cp, r1);
    r := OutputDupIf(c.minus, ' ', pad, r2);
    Joined(out, if !c.minus && !c.zero then Dup(' ', pad) else "", sign, prefix, if c.zero then Dup('0', pad) else "",
           Reversed(buf[..cp]), if c.minus then Dup(' ', pad) else "");
  }

  /** The buffer from its end to its start. */
  method Emit(buf: array<char>, cnt: nat, out: string) returns (r: string)
    requires cnt <= buf.Length
    ensures r == out + Reversed(buf[..cnt])
  {
    r := out;
    var cp: nat := cnt;
    while cp > 0
      invariant cp <= cnt && r + Reversed(buf[..cp]) == out + Reversed(buf[..cnt])
    {
      cp := cp - 1;
      assert buf[..cp + 1][..cp] == buf[..cp];
      r := r + [buf[cp]];
    }
  }

  lemma Joined(out: string, s: string, t: string, u: string, v: string, w: string, x: string)
    ensures out + s + t + u + v + w + x == out + (s + t + u + v + w + x)
  {
    assert out + s + t == out + (s + t);
    assert out + (s + t) + u == out + (s + t + u);
    assert out + (s + t + u) + v == out + (s + t + u + v);
    assert out + (s + t + u + v) + w == out + (s + t + u + v + w);
  }

  // ---------- atoi ----------

  const INT_MAX: int := 0x7fff_ffff
  const INT_MIN: int := -0x8000_0000

  predicate IsSpace(ch: char) {
    ch == ' ' || '\t' <= ch <= '\r'
  }

  predicate IsDigit(ch: char) {
    '0' <= ch <= '9'
  }

  function DigitValue(ch: char): int {
    ch as int - '0' as int
  }

  function AfterSpaces(s: string): string {
    if s != "" && IsSpace(s[0]) then AfterSpaces(s[1..]) else s
  }

  /** The digits at the start of s go on from value, downwards. */
  function Downwards(value: int, s: string): int
    decreases s
  {
    if s != "" && IsDigit(s[0]) then Downwards(A.Signed32(value * 10 - DigitValue(s[0])), s[1..]) else value
  }

  function Value(s: string): int {
    var t := AfterSpaces(s);
    if t != "" && t[0] == '+' then A.Signed32(-Downwards(0, t[1..]))
    else if t != "" && t[0] == '-' then Downwards(0, t[1..])
    else A.Signed32(-Downwards(0, t))
  }

  method ParseDigits(s: string, start: nat) returns (value: int)
    requires start <= |s|
    ensures value == Downwards(0, s[start..])
  {
    var i := start;
    value := 0;
    while i < |s| && IsDigit(s[i])
      invariant i <= |s| && Downwards(value, s[i..]) == Downwards(0, s[start..])
    {
      assert s[i..][1..] == s[i + 1..];
      value := A.Signed32(value * 10 - DigitValue(s[i]));
      i := i + 1;
    }
  }

  method SkipSpaces(s: string) returns (i: nat)
    ensures i <= |s| && s[i..] == AfterSpaces(s)
  {
    i := 0;
    while i < |s| && IsSpace(s[i])
      invariant i <= |s| && AfterSpaces(s) == AfterSpaces(s[i..])
    {
      assert s[i..][1..] == s[i + 1..];
      i := i + 1;
    }
  }

  /** `atoi`; s stands for the text before the terminating null. */
  method Atoi(s: string) returns (value: int)
    ensures value == Value(s)
  {
    var i := SkipSpaces(s);
    ghost var t := s[i..];
    var negative := false;
    if i < |s| && s[i] == '+' {
      assert t[1..] == s[i + 1..];
      i := i + 1;
    } else if i < |s| && s[i] == '-' {
      assert t[1..] == s[i + 1..];
      negative := true;
      i := i + 1;
    }
    value := ParseDigits(s, i);
    if !negative {
      value := A.Signed32(-value);
    }
  }

  // ---------- Reading back what was printed ----------

  predicate AllDigits(s: string) {
    forall i :: 0 <= i < |s| ==> IsDigit(s[i])
  }

  /** s ends, or goes on with something that is no digit. */
  predicate Stops(s: string) {
    s == "" || !IsDigit(s[0])
  }

  /** The digits of ds after value, counted downwards without wrapping. */
  function Exact(value: int, ds: string): int
    decreases ds
  {
    if ds == "" then value else Exact(value * 10 - DigitValue(ds[0]), ds[1..])
  }

  lemma {:induction false} ExactFalls(value: int, ds: string)
    requires AllDigits(ds) && value <= 0
    ensures Exact(value, ds) <= value
    decreases ds
  {
    if ds != "" {
      ExactFalls(value * 10 - DigitValue(ds[0]), ds[1..]);
    }
  }

  /** No intermediate value is below the final one, so nothing wraps when the final one is an int. */
  lemma {:induction false} NoWrap(value: int, ds: string, rest: string)
    requires AllDigits(ds) && Stops(rest) && value <= 0 && Exact(value, ds) >= INT_MIN
    ensures Downwards(value, ds + rest) == Exact(value, ds)
    decreases ds
  {
    if ds == "" {
      assert ds + rest == rest;
    } else {
      var next := value * 10 - DigitValue(ds[0]);
      ExactFalls(next, ds[1..]);
      NoWrap(next, ds[1..], rest);
      assert (ds + rest)[1..] == ds[1..] + rest;
    }
  }

  lemma {:induction false} ExactSnoc(value: int, ds: string, ch: char)
    ensures Exact(value, ds + [ch]) == Exact(value, ds) * 10 - DigitValue(ch)
    decreases ds
  {
    if ds == "" {
      assert ds + [ch] == [ch];
      assert [ch][1..] == "";
    } else {
      ExactSnoc(value * 10 - DigitValue(ds[0]), ds[1..], ch);
      assert (ds + [ch])[1..] == ds[1..] + [ch];
    }
  }

  lemma {:induction false} LeadingZeros(n: int, ds: string)
    requires AllDigits(ds)
    ensures AllDigits(Dup('0', n) + ds) && Exact(0, Dup('0', n) + ds) == Exact(0, ds)
    decreases n
  {
    if n <= 0 {
      assert Dup('0', n) + ds == ds;
    } else {
      LeadingZeros(n - 1, ds);
      var all := Dup('0', n) + ds;
      assert all[1..] == Dup('0', n - 1) + ds;
      assert all == ['0'] + all[1..];
    }
  }

  lemma {:induction false} LeadingSpaces(n: int, s: string)
    ensures AfterSpaces(Dup(' ', n) + s) == AfterSpaces(s)
    decreases n
  {
    if n <= 0 {
      assert Dup(' ', n) + s == s;
    } else {
      LeadingSpaces(n - 1, s);
      assert (Dup(' ', n) + s)[1..] == Dup(' ', n - 1) + s;
    }
  }

  /** Decimal digits without separators spell the number. */
  lemma {:induction false} DigitsSpell(v: nat, cnt: nat)
    ensures AllDigits(Digits(Decimal, v, false, cnt)) && Exact(0, Digits(Decimal, v, false, cnt)) == 0 - v as int
    decreases v
  {
    if v > 0 {
      DigitsSpell(v / 10, cnt + 1);
      var ch := DigitChar(Decimal, v % 10);
      ExactSnoc(0, Digits(Decimal, v / 10, false, cnt + 1), ch);
      assert Digits(Decimal, v, false, cnt) == Digits(Decimal, v / 10, false, cnt + 1) + [ch];
      assert DigitValue(ch) == v % 10;
    }
  }

  /** Below 1000 there is nothing to separate. */
  lemma SmallUngrouped(v: nat, group: bool)
    requires v < 1000
    ensures Digits(Decimal, v, group, 0) == Digits(Decimal, v, false, 0)
  {
    assert v / 10 / 10 / 10 == 0;
    assert Digits(Decimal, v / 10 / 10, group, 2) == Digits(Decimal, v / 10 / 10, false, 2);
    assert Digits(Decimal, v / 10, group, 1) == Digits(Decimal, v / 10, false, 1);
  }

  /** Separated digits begin with at most three digits. */
  lemma {:induction false} FirstGroup(v: nat, cnt: nat) returns (ds: string, rest: string)
    requires v > 0
    ensures Digits(Decimal, v, true, cnt) == ds + rest && AllDigits(ds) && 1 <= |ds| <= 3
    ensures rest == "" || rest[0] == ','
    ensures rest == "" ==> forall j :: cnt <= j < cnt + |ds| ==> !CommaAt(Decimal, true, j)
    decreases v
  {
    var last := [DigitChar(Decimal, v % 10)];
    var comma := if CommaAt(Decimal, true, cnt) then "," else "";
    if v < 10 {
      ds, rest := last, comma;
      assert Digits(Decimal, v / 10, true, cnt + 1) == "";
    } else {
      ds, rest := FirstGroup(v / 10, cnt + 1);
      if rest == "" {
        if |ds| == 3 {
          assert !CommaAt(Decimal, true, cnt + 1) && !CommaAt(Decimal, true, cnt + 2) &&
                 !CommaAt(Decimal, true, cnt + 3);
        }
        ds, rest := ds + last, comma;
      } else {
        rest := rest + last + comma;
      }
    }
  }

  function AllNines(n: nat): nat {
    if n == 0 then 0 else AllNines(n - 1) * 10 + 9
  }

  lemma {:induction false} DigitsBound(ds: string)
    requires AllDigits(ds)
    ensures 0 - AllNines(|ds|) as int <= Exact(0, ds) <= 0
  {
    if ds != "" {
      var n := |ds| - 1;
      DigitsBound(ds[..n]);
      ExactSnoc(0, ds[..n], ds[n]);
      assert ds == ds[..n] + [ds[n]];
    }
  }

  /** Reading spaces, a sign and digits up to something else. */
  lemma Reads(n: int, sign: string, ds: string, rest: string)
    requires sign in {"", " ", "+", "-"} && AllDigits(ds) && Stops(rest) && Exact(0, ds) >= INT_MIN
    requires ds == "" ==> rest == Dup(' ', |rest|)
    ensures Value(Dup(' ', n) + (sign + (ds + rest))) == if sign == "-" then Exact(0, ds) else A.Signed32(-Exact(0, ds))
  {
    var body := ds + rest;
    LeadingSpaces(n, sign + body);
    LeadingSpaces(|rest|, "");
    assert Dup(' ', |rest|) + "" == Dup(' ', |rest|);
    NoWrap(0, ds, rest);
    if sign == "" {
      assert sign + body == body;
    } else {
      assert (sign + body)[1..] == body;
    }
    if ds == "" {
      assert body == rest;
    } else {
      assert body[0] == ds[0];
    }
  }

  lemma ZerosBefore(digits: string, c: Conversion) returns (more: int)
    ensures WithZeros(Decimal, digits, c) == Dup('0', more) + digits
  {
    var precision := if c.precision < 0 then 1 else c.precision;
    more := Min(precision, BUF_SIZE - 1) - |digits|;
  }

  /** How the text of a decimal conversion is made up. */
  lemma TextParts(v: nat, negative: bool, c: Conversion, digits: string) returns (n: int, zeros: int, more: int, m: int)
    requires digits == Digits(Decimal, v, c.group, 0)
    ensures Text(v, true, negative, Decimal, c) ==
              Dup(' ', n) + (Sign(true, negative, c) + ((Dup('0', zeros) + (Dup('0', more) + digits)) + Dup(' ', m)))
  {
    more := ZerosBefore(digits, c);
    var body, sign := Dup('0', more) + digits, Sign(true, negative, c);
    Parts(c, sign, body);
    var pad := c.width - |body| - |sign|;
    n, zeros, m := if !c.minus && !c.zero then pad else 0, if c.zero then pad else 0, if c.minus then pad else 0;
  }

  lemma Parts(c: Conversion, sign: string, body: string)
    ensures var pad := c.width - |body| - |sign|;
            Arranged(c, sign, "", body) ==
              Dup(' ', if !c.minus && !c.zero then pad else 0)
              + (sign + ((Dup('0', if c.zero then pad else 0) + body) + Dup(' ', if c.minus then pad else 0)))
  {
    var pad := c.width - |body| - |sign|;
    var lead, zeros := Dup(' ', if !c.minus && !c.zero then pad else 0), Dup('0', if c.zero then pad else 0);
    var trail := Dup(' ', if c.minus then pad else 0);
    assert Arranged(c, sign, "", body) == lead + sign + "" + zeros + body + trail;
    Nested(lead, sign, zeros, body, trail);
  }

  lemma Nested(lead: string, sign: string, zeros: string, body: string, trail: string)
    ensures lead + sign + "" + zeros + body + trail == lead + (sign + ((zeros + body) + trail))
  {
    assert lead + sign + "" == lead + sign;
    assert lead + sign + zeros + body == lead + (sign + (zeros + body));
  }

  /** Wherever the digits end, this is what `atoi` makes of the text. */
  lemma ReadsText(v: nat, negative: bool, c: Conversion, ds: string, rest: string)
    requires Digits(Decimal, v, c.group, 0) == ds + rest && AllDigits(ds)
    requires (rest == "" || rest[0] == ',') && (ds == "" ==> rest == "") && Exact(0, ds) >= INT_MIN
    ensures Value(Text(v, true, negative, Decimal, c)) == if negative then Exact(0, ds) else A.Signed32(-Exact(0, ds))
  {
    var n, zeros, more, m := TextParts(v, negative, c, ds + rest);
    var sign := Sign(true, negative, c);
    var all := Dup('0', zeros) + (Dup('0', more) + ds);
    LeadingZeros(more, ds);
    LeadingZeros(zeros, Dup('0', more) + ds);
    var tail := rest + Dup(' ', m);
    Regroup(Dup('0', zeros), Dup('0', more), ds, rest, Dup(' ', m));
    if rest == "" {
      assert tail == Dup(' ', m);
      DupIsDup(' ', m);
    }
    Reads(n, sign, all, tail);
  }

  lemma Regroup(a: string, b: string, c: string, d: string, e: string)
    ensures (a + (b + (c + d))) + e == (a + (b + c)) + (d + e)
  {
  }

  lemma DupIsDup(ch: char, m: int)
    ensures Dup(ch, m) == Dup(ch, |Dup(ch, m)|) && (Dup(ch, m) != "" ==> Dup(ch, m)[0] == ch)
  {
  }

  /**
   * `atoi` reads back what a signed decimal conversion prints, for every int, width, precision and set of flags,
   * except that with the grouping flag a number of four digits or more is cut at its first separator.
   */
  lemma PrintedIsRead(v: int, c: Conversion)
    requires INT_MIN <= v <= INT_MAX
    ensures Value(Text(Abs(v), true, v < 0, Decimal, c)) == v <==> !c.group || Abs(v) < 1000
  {
    var n := Abs(v);
    if !c.group || n < 1000 {
      if c.group {
        SmallUngrouped(n, c.group);
      }
      var ds := Digits(Decimal, n, false, 0);
      DigitsSpell(n, 0);
      assert ds + "" == ds;
      ReadsText(n, v < 0, c, ds, "");
    } else {
      var ds, rest := FirstGroup(n, 0);
      DigitsBound(ds);
      assert AllNines(3) == 999 && AllNines(2) == 99 && AllNines(1) == 9;
      ReadsText(n, v < 0, c, ds, rest);
    }
  }

  /** Printing an int and reading the text. */
  method PrintAndRead(v: int, c: Conversion) returns (r: int)
    requires INT_MIN <= v <= INT_MAX
    ensures r == v <==> !c.group || Abs(v) < 1000
  {
    PrintedIsRead(v, c);
    var text := FormatInteger(Abs(v), true, v < 0, Decimal, c, "");
    assert "" + Text(Abs(v), true, v < 0, Decimal, c) == Text(Abs(v), true, v < 0, Decimal, c);
    r := Atoi(text);
  }
}
