/** What the text of an integer conversion spells, in every base (lib/stdio.c, `format_integer`). */
module Spelling {
  import opened Common
  import opened Format
  import A = Arithmetic

  // ---------- Reading digits ----------

  function Radix(b: Base): nat { if b.Decimal? then 10 else if b.Octal? then 8 else 16 }

  /** How many digits stand between two separators. */
  function GroupSize(b: Base): nat { if b.Decimal? || b.Octal? then 3 else 4 }

  function CharValue(ch: char): int {
    if '0' <= ch <= '9' then ch as int - '0' as int
    else if 'a' <= ch <= 'f' then ch as int - 'a' as int + 10
    else if 'A' <= ch <= 'F' then ch as int - 'A' as int + 10
    else -1
  }

  /** A digit of the base, in the case that the conversion asks for. */
  predicate IsDigitOf(b: Base, ch: char) {
    0 <= CharValue(ch) < Radix(b) && (if b.UpperHex? then !('a' <= ch <= 'f') else !('A' <= ch <= 'F'))
  }

  /** The number that s spells, separators left out. */
  function Reading(b: Base, s: string): int {
    if s == "" then 0
    else
      var front, last := Reading(b, s[..|s| - 1]), s[|s| - 1];
      if last == ',' then front else front * Radix(b) + CharValue(last)
  }

  lemma ReadingSnoc(b: Base, s: string, ch: char)
    ensures Reading(b, s + [ch]) == if ch == ',' then Reading(b, s) else Reading(b, s) * Radix(b) + CharValue(ch)
  {
    assert (s + [ch])[..|s|] == s;
  }

  lemma DigitIs(b: Base, d: nat)
    requires d < Radix(b)
    ensures CharValue(DigitChar(b, d)) == d && IsDigitOf(b, DigitChar(b, d)) && DigitChar(b, d) != ','
  {
    var ch := DigitChar(b, d);
    if d < 8 {
      assert d == 0 || d == 1 || d == 2 || d == 3 || d == 4 || d == 5 || d == 6 || d == 7;
    } else {
      assert d == 8 || d == 9 || d == 10 || d == 11 || d == 12 || d == 13 || d == 14 || d == 15;
    }
  }

  /** v is what its shorter part and its last digit make. */
  lemma LastDigitIs(b: Base, v: nat)
    ensures LastDigit(b, v) < Radix(b) && Shrunk(b, v) * Radix(b) + LastDigit(b, v) == v
  {
  }

  lemma {:induction false} ReadsBack(b: Base, v: nat, group: bool, cnt: nat)
    ensures Reading(b, Digits(b, v, group, cnt)) == v
    decreases v
  {
    if v > 0 {
      var front, ch := Digits(b, Shrunk(b, v), group, cnt + 1), DigitChar(b, LastDigit(b, v));
      LastDigitIs(b, v);
      DigitIs(b, LastDigit(b, v));
      ReadsBack(b, Shrunk(b, v), group, cnt + 1);
      ReadingSnoc(b, front, ch);
      ReadingSnoc(b, front + [ch], ',');
      assert front + [ch] + "" == front + [ch];
    }
  }

  /** Nothing but digits of the base and separators, and a first digit that is not zero. */
  predicate Clean(b: Base, s: string) {
    && (forall k :: 0 <= k < |s| ==> s[k] == ',' || IsDigitOf(b, s[k]))
    && (s != "" ==> CharValue(s[0]) > 0)
  }

  lemma {:induction false} DigitsClean(b: Base, v: nat, group: bool, cnt: nat)
    ensures Clean(b, Digits(b, v, group, cnt)) && (Digits(b, v, group, cnt) == "" <==> v == 0)
    decreases v
  {
    if v > 0 {
      LastDigitIs(b, v);
      DigitIs(b, LastDigit(b, v));
      DigitsClean(b, Shrunk(b, v), group, cnt + 1);
    }
  }

  // ---------- Separators ----------

  /** The character with j others of s behind it. */
  function FromRight(s: string, j: nat): char
    requires j < |s|
  {
    s[|s| - 1 - j]
  }

  /**
   * Counted from the right, with ofs characters behind s: a separator stands behind every full group, and only there.
   */
  predicate Grouped(b: Base, group: bool, s: string, ofs: nat) {
    forall j :: 0 <= j < |s| ==>
      (FromRight(s, j) == ',' <==> group && (ofs + j) % (GroupSize(b) + 1) == GroupSize(b))
  }

  /** The characters that cnt digits take, with the separators between them. */
  function Taken(b: Base, cnt: nat): nat {
    if cnt == 0 then 0 else cnt + (cnt - 1) / GroupSize(b)
  }

  lemma TakenNext(b: Base, cnt: nat)
    ensures Taken(b, cnt + 1) == Taken(b, cnt) + if CommaAt(b, true, cnt) then 2 else 1
    ensures CommaAt(b, true, cnt) <==> Taken(b, cnt) % (GroupSize(b) + 1) == GroupSize(b)
    ensures CommaAt(b, true, cnt) ==> (Taken(b, cnt) + 1) % (GroupSize(b) + 1) == 0
  {
    if GroupSize(b) == 3 {
      TakenByThree(cnt);
    } else {
      TakenByFour(cnt);
    }
  }

  lemma TakenByThree(cnt: nat)
    ensures cnt > 0 ==> (cnt / 3 == (cnt - 1) / 3 + if cnt % 3 == 0 then 1 else 0)
    ensures cnt > 0 ==> (cnt % 3 == 0 <==> (cnt + (cnt - 1) / 3) % 4 == 3)
  {
  }

  lemma TakenByFour(cnt: nat)
    ensures cnt > 0 ==> (cnt / 4 == (cnt - 1) / 4 + if cnt % 4 == 0 then 1 else 0)
    ensures cnt > 0 ==> (cnt % 4 == 0 <==> (cnt + (cnt - 1) / 4) % 5 == 4)
  {
  }

  lemma GroupedOn(b: Base, group: bool, front: string, ch: char, comma: string, ofs: nat)
    requires ch != ',' && comma == (if group && ofs % (GroupSize(b) + 1) == GroupSize(b) then "," else "")
    requires comma != "" ==> (ofs + 1) % (GroupSize(b) + 1) == 0
    requires Grouped(b, group, front, ofs + 1 + |comma|)
    ensures Grouped(b, group, front + [ch] + comma, ofs)
  {
    var s := front + [ch] + comma;
    forall j | 0 <= j < |s|
      ensures FromRight(s, j) == ',' <==> group && (ofs + j) % (GroupSize(b) + 1) == GroupSize(b)
    {
      var i := j - 1 - |comma|;
      if i >= 0 {
        assert FromRight(s, j) == FromRight(front, i);
        assert ofs + j == (ofs + 1 + |comma|) + i;
      }
    }
  }

  lemma {:induction false} Separators(b: Base, v: nat, group: bool, cnt: nat)
    ensures Grouped(b, group, Digits(b, v, group, cnt), Taken(b, cnt))
    decreases v
  {
    if v > 0 {
      var front, ch := Digits(b, Shrunk(b, v), group, cnt + 1), DigitChar(b, LastDigit(b, v));
      var comma := if CommaAt(b, group, cnt) then "," else "";
      LastDigitIs(b, v);
      DigitIs(b, LastDigit(b, v));
      Separators(b, Shrunk(b, v), group, cnt + 1);
      TakenNext(b, cnt);
      if !group {
        Elsewhere(b, front, Taken(b, cnt + 1), Taken(b, cnt) + 1);
      }
      GroupedOn(b, group, front, ch, comma, Taken(b, cnt));
    }
  }

  lemma Elsewhere(b: Base, s: string, ofs: nat, ofs': nat)
    requires Grouped(b, false, s, ofs)
    ensures Grouped(b, false, s, ofs')
  {
    assert forall j :: 0 <= j < |s| ==> FromRight(s, j) != ',';
  }

  // ---------- The whole text ----------

  predicate AllAre(s: string, ch: char) {
    forall k :: 0 <= k < |s| ==> s[k] == ch
  }

  lemma {:induction false} DupAre(ch: char, cnt: int)
    ensures AllAre(Dup(ch, cnt), ch) && |Dup(ch, cnt)| == Max(0, cnt)
    decreases cnt
  {
    if cnt > 0 {
      DupAre(ch, cnt - 1);
    }
  }

  /** digits spells v in base b: most significant digit first, grouped from the right if asked for, nothing for zero. */
  predicate Spells(b: Base, group: bool, digits: string, v: nat) {
    && Reading(b, digits) == v && (digits == "" <==> v == 0)
    && Clean(b, digits) && Grouped(b, group, digits, 0)
  }

  /**
   * Zeros in front of n digits: up to the precision, of which there is room for 63, and one at least with # in base 8.
   */
  function ZeroCnt(b: Base, c: Conversion, n: nat): nat {
    var fill := Max(0, Min(if c.precision < 0 then 1 else c.precision, 63) - n);
    if fill == 0 && c.pound && b.Octal? then 1 else fill
  }

  lemma BodySpelled(b: Base, v: nat, c: Conversion) returns (zeros: string, digits: string)
    ensures Body(b, v, c) == zeros + digits && Spells(b, c.group, digits, v)
    ensures AllAre(zeros, '0') && |zeros| == ZeroCnt(b, c, |digits|)
  {
    digits := Digits(b, v, c.group, 0);
    DigitsSpellIt(b, v, c.group);
    zeros := FilledIs(b, digits, c);
  }

  lemma DigitsSpellIt(b: Base, v: nat, group: bool)
    ensures Spells(b, group, Digits(b, v, group, 0), v)
  {
    ReadsBack(b, v, group, 0);
    DigitsClean(b, v, group, 0);
    Separators(b, v, group, 0);
  }

  lemma FilledIs(b: Base, digits: string, c: Conversion) returns (zeros: string)
    requires digits != "" ==> digits[0] != '0'
    ensures WithZeros(b, digits, c) == zeros + digits
    ensures AllAre(zeros, '0') && |zeros| == ZeroCnt(b, c, |digits|)
  {
    var want := Min(if c.precision < 0 then 1 else c.precision, 63) - |digits|;
    DupAre('0', want);
    zeros := if want <= 0 && c.pound && b.Octal? then "0" else Dup('0', want);
  }

  /** The sign character, if there is one. */
  predicate IsSign(sign: string, isSigned: bool, negative: bool, c: Conversion) {
    && (sign == "-" <==> isSigned && negative) && (sign == "+" <==> isSigned && !negative && c.plus)
    && (sign == " " <==> isSigned && !negative && !c.plus && c.space) && sign in {"", "-", "+", " "}
  }

  predicate IsPrefix(prefix: string, b: Base, v: nat, c: Conversion) {
    && (prefix == "0x" <==> c.pound && v > 0 && b.LowerHex?) && (prefix == "0X" <==> c.pound && v > 0 && b.UpperHex?)
    && prefix in {"", "0x", "0X"}
  }

  /**
   * What `format_integer` emits: spaces in front, sign, prefix, zeros up to the width, zeros up to the precision,
       digits,
   * spaces behind; the digits spell v.
   */
  lemma TextSpelled(v: nat, isSigned: bool, negative: bool, b: Base, c: Conversion)
      returns (left: string, sign: string, prefix: string, mid: string, zeros: string, digits: string, right: string)
    ensures Text(v, isSigned, negative, b, c) == left + sign + prefix + mid + (zeros + digits) + right
    ensures IsSign(sign, isSigned, negative, c) && IsPrefix(prefix, b, v, c)
    ensures Spells(b, c.group, digits, v) && AllAre(zeros, '0') && |zeros| == ZeroCnt(b, c, |digits|)
    ensures AllAre(left, ' ') && AllAre(mid, '0') && AllAre(right, ' ')
    ensures var pad := Max(0, c.width - |sign| - |prefix| - |zeros| - |digits|);
            && |left| == (if c.minus || c.zero then 0 else pad)
            && |mid| == (if c.zero then pad else 0) && |right| == (if c.minus then pad else 0)
    ensures !(c.minus && c.zero) ==>
              |Text(v, isSigned, negative, b, c)| == Max(c.width, |sign| + |prefix| + |zeros| + |digits|)
  {
    sign, prefix := Sign(isSigned, negative, c), Prefix(b, v, c);
    zeros, digits := BodySpelled(b, v, c);
    var pad := c.width - |Body(b, v, c)| - |prefix| - |sign|;
    DupAre(' ', pad);
    DupAre('0', pad);
    left := if !c.minus && !c.zero then Dup(' ', pad) else "";
    mid := if c.zero then Dup('0', pad) else "";
    right := if c.minus then Dup(' ', pad) else "";
  }

  // ---------- atoi ----------

  /** A blank, or one of the control characters 9 to 13. */
  predicate White(ch: char) { ch as int == 32 || 9 <= ch as int <= 13 }

  lemma WhiteIs(ch: char)
    ensures IsSpace(ch) <==> White(ch)
  {
  }

  lemma {:induction false} SpacesSkipped(spaces: string, t: string)
    requires (forall k :: 0 <= k < |spaces| ==> White(spaces[k])) && (t == "" || !White(t[0]))
    ensures AfterSpaces(spaces + t) == t
    decreases |spaces|
  {
    if spaces == "" {
      assert spaces + t == t;
    } else {
      WhiteIs(spaces[0]);
      assert (spaces + t)[0] == spaces[0] && (spaces + t)[1..] == spaces[1..] + t;
      SpacesSkipped(spaces[1..], t);
    }
    if t != "" {
      WhiteIs(t[0]);
    }
  }

  /** Wrapping to 32 bits adds a multiple of 2^32, and forgets multiples of it. */
  lemma WrapIs(x: int) returns (q: int)
    ensures A.Signed32(x) == x + q * 0x1_0000_0000
  {
    q := (A.Signed32(x) - x) / 0x1_0000_0000;
  }

  lemma WrapForgets(x: int, q: int)
    ensures A.Signed32(x + q * 0x1_0000_0000) == A.Signed32(x)
  {
    var a := WrapIs(x);
    var b := WrapIs(x + q * 0x1_0000_0000);
  }

  /** Starting a multiple of 2^32 higher ends a multiple of 2^32 higher. */
  lemma {:induction false} ExactShifts(value: int, q: int, ds: string) returns (r: int)
    ensures Exact(value + q * 0x1_0000_0000, ds) == Exact(value, ds) + r * 0x1_0000_0000
    decreases ds
  {
    r := q;
    if ds != "" {
      r := ExactShifts(value * 10 - DigitValue(ds[0]), 10 * q, ds[1..]);
      assert (value + q * 0x1_0000_0000) * 10 - DigitValue(ds[0]) ==
             value * 10 - DigitValue(ds[0]) + (10 * q) * 0x1_0000_0000;
    }
  }

  lemma {:induction false} DownwardsWraps(value: int, ds: string, rest: string)
    requires A.Int32(value) && AllDigits(ds) && Stops(rest)
    ensures Downwards(value, ds + rest) == A.Signed32(Exact(value, ds))
    decreases ds
  {
    if ds == "" {
      assert ds + rest == rest;
    } else {
      var next := value * 10 - DigitValue(ds[0]);
      assert (ds + rest)[0] == ds[0] && (ds + rest)[1..] == ds[1..] + rest;
      DownwardsWraps(A.Signed32(next), ds[1..], rest);
      var q := WrapIs(next);
      var r := ExactShifts(next, q, ds[1..]);
      WrapForgets(Exact(next, ds[1..]), r);
    }
  }

  lemma {:induction false} ExactIsReading(ds: string)
    requires AllDigits(ds)
    ensures Exact(0, ds) == -Reading(Decimal, ds)
    decreases |ds|
  {
    if ds != "" {
      var front, ch := ds[..|ds| - 1], ds[|ds| - 1];
      assert ds == front + [ch];
      ExactIsReading(front);
      ExactSnoc(0, front, ch);
    }
  }

  lemma AfterSign(s: string, sign: string, u: string)
    requires AfterSpaces(s) == sign + u && sign in {"", "+", "-"}
    requires sign == "" && u != "" ==> u[0] != '+' && u[0] != '-'
    ensures Value(s) == if sign == "-" then Downwards(0, u) else A.Signed32(-Downwards(0, u))
  {
    if sign == "" {
      assert sign + u == u;
    } else {
      assert (sign + u)[0] == sign[0] && (sign + u)[1..] == u;
    }
  }

  lemma DigitsRead(u: string, ds: string, rest: string)
    requires u == ds + rest && AllDigits(ds) && Stops(rest)
    ensures Downwards(0, u) == A.Signed32(-Reading(Decimal, ds))
    ensures A.Signed32(-Downwards(0, u)) == A.Signed32(Reading(Decimal, ds))
  {
    DownwardsWraps(0, ds, rest);
    ExactIsReading(ds);
    var q := WrapIs(-Reading(Decimal, ds));
    WrapForgets(Reading(Decimal, ds), -q);
  }

  lemma FirstOfText(t: string, sign: string, u: string, ds: string, rest: string)
    requires t == sign + u && u == ds + rest
    requires sign in {"", "+", "-"} && (forall k :: 0 <= k < |ds| ==> '0' <= ds[k] <= '9')
    requires sign == "" && ds == "" && rest != "" ==> rest[0] != '+' && rest[0] != '-' && !White(rest[0])
    ensures t == "" || !White(t[0])
    ensures sign == "" && u != "" ==> u[0] != '+' && u[0] != '-'
  {
    assert ds != "" ==> u[0] == ds[0];
    assert ds == "" ==> u == rest;
    assert sign != "" ==> t[0] == sign[0];
    assert sign == "" ==> t == u;
  }

  /** What `atoi` makes of a number n with that sign: a number that is too large wraps. */
  function Signed(sign: string, n: int): int {
    A.Signed32(if sign == "-" then -n else n)
  }

  lemma SpacesBefore(s: string, spaces: string, t: string)
    requires s == spaces + t && (forall k :: 0 <= k < |spaces| ==> White(spaces[k])) && (t == "" || !White(t[0]))
    ensures AfterSpaces(s) == t
  {
    SpacesSkipped(spaces, t);
  }

  /**
   * `atoi` of any text s: white space and t, which is a sign and u, which is digits and whatever comes then. It gives
   * the number that the digits spell, with the sign.
   */
  lemma AtoiReads(s: string, spaces: string, t: string, sign: string, u: string, ds: string, rest: string)
    requires s == spaces + t && t == sign + u && u == ds + rest
    requires (forall k :: 0 <= k < |spaces| ==> White(spaces[k])) && sign in {"", "+", "-"}
    requires (forall k :: 0 <= k < |ds| ==> '0' <= ds[k] <= '9') && (rest == "" || !('0' <= rest[0] <= '9'))
    requires sign == "" && ds == "" && rest != "" ==> rest[0] != '+' && rest[0] != '-' && !White(rest[0])
    ensures Value(s) == Signed(sign, Reading(Decimal, ds))
  {
    FirstOfText(t, sign, u, ds, rest);
    SpacesBefore(s, spaces, t);
    DigitsRead(u, ds, rest);
    AfterSign(s, sign, u);
  }
}
