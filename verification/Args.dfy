/**
 * Splitting a command line: `strtok_r` (lib/string.c) and the argument loop of `load` (userprog/process.c of Project
 * 2).
 */
module Args {
  import opened Common

  const ARGC_LIMIT: nat := 40
  const SPACE: Byte := 32

  // ---------- C strings ----------

  /** The position of the null that ends the string at s, or the length of m. */
  function End(m: seq<Byte>, s: nat): (e: nat)
    requires s <= |m|
    ensures s <= e <= |m| && (e < |m| ==> m[e] == 0)
    decreases |m| - s
  {
    if s == |m| || m[s] == 0 then s else End(m, s + 1)
  }

  lemma {:induction false} NoNullBefore(m: seq<Byte>, s: nat)
    requires s <= |m|
    ensures forall i :: s <= i < End(m, s) ==> m[i] != 0
    decreases |m| - s
  {
    if s < |m| && m[s] != 0 {
      NoNullBefore(m, s + 1);
    }
  }

  predicate Terminated(m: seq<Byte>, s: nat) {
    s <= |m| && End(m, s) < |m|
  }

  function Str(m: seq<Byte>, s: nat): seq<Byte>
    requires s <= |m|
  {
    m[s..End(m, s)]
  }

  lemma {:induction false} EndIs(m: seq<Byte>, s: nat, e: nat)
    requires s <= e < |m| && m[e] == 0 && forall i :: s <= i < e ==> m[i] != 0
    ensures End(m, s) == e
    decreases e - s
  {
    if s < e {
      EndIs(m, s + 1, e);
    }
  }

  // ---------- Words ----------

  /** How many bytes at the start of t are delimiters, or are none. */
  function Leading(t: seq<Byte>, d: seq<Byte>, delims: bool): (n: nat)
    ensures n <= |t|
  {
    if t != [] && (t[0] in d) == delims then 1 + Leading(t[1..], d, delims) else 0
  }

  function AfterGap(t: seq<Byte>, d: seq<Byte>): seq<Byte> {
    t[Leading(t, d, true)..]
  }

  /** The first word of a text that starts with one, and what `strtok_r` goes on with: the delimiter is overwritten. */
  function FirstWord(u: seq<Byte>, d: seq<Byte>): seq<Byte> {
    u[..Leading(u, d, false)]
  }

  function AfterWord(u: seq<Byte>, d: seq<Byte>): (r: seq<Byte>)
    ensures u != [] ==> |r| < |u|
  {
    var n := Leading(u, d, false);
    if n < |u| then u[n + 1..] else []
  }

  /** The words of t, as `strtok_r` takes them one after the other. */
  function Words(t: seq<Byte>, d: seq<Byte>): seq<seq<Byte>>
    decreases |t|
  {
    var u := AfterGap(t, d);
    if u == [] then [] else [FirstWord(u, d)] + Words(AfterWord(u, d), d)
  }

  lemma {:induction false} LeadingAre(t: seq<Byte>, d: seq<Byte>, delims: bool)
    ensures var n := Leading(t, d, delims);
            && (forall i :: 0 <= i < n ==> (t[i] in d) == delims)
            && (n < |t| ==> (t[n] in d) == !delims)
  {
    if t != [] && (t[0] in d) == delims {
      LeadingAre(t[1..], d, delims);
      assert forall i :: 1 <= i < |t| ==> t[i] == t[1..][i - 1];
    }
  }

  lemma {:induction false} LeadingIs(t: seq<Byte>, d: seq<Byte>, delims: bool, n: nat)
    requires n <= |t| && (forall i :: 0 <= i < n ==> (t[i] in d) == delims) && (n < |t| ==> (t[n] in d) == !delims)
    ensures Leading(t, d, delims) == n
  {
    if n > 0 {
      assert forall i :: 0 <= i < |t| - 1 ==> t[1..][i] == t[i + 1];
      LeadingIs(t[1..], d, delims, n - 1);
    }
  }

  /** A text starts with a gap, a word, the delimiter behind it and what `strtok_r` goes on with; each may be empty. */
  ghost predicate Cut(t: seq<Byte>, d: seq<Byte>, gap: seq<Byte>, word: seq<Byte>, delim: seq<Byte>, tail: seq<Byte>) {
    && t == gap + (word + (delim + tail))
    && |delim| <= 1 && (delim == [] ==> tail == []) && (word == [] ==> delim == [])
    && (forall i :: 0 <= i < |gap| ==> gap[i] in d) && (forall i :: 0 <= i < |word| ==> word[i] !in d)
    && (forall i :: 0 <= i < |delim| ==> delim[i] in d)
  }

  lemma Sliced(t: seq<Byte>, k: nat) returns (front: seq<Byte>, back: seq<Byte>)
    requires k <= |t|
    ensures front == t[..k] && back == t[k..] && t == front + back
  {
    front, back := t[..k], t[k..];
  }

  lemma GapPart(t: seq<Byte>, d: seq<Byte>) returns (gap: seq<Byte>, u: seq<Byte>)
    ensures t == gap + u && u == AfterGap(t, d) && (u != [] ==> u[0] !in d)
    ensures forall i :: 0 <= i < |gap| ==> gap[i] in d
  {
    LeadingAre(t, d, true);
    gap, u := Sliced(t, Leading(t, d, true));
  }

  lemma WordPart(u: seq<Byte>, d: seq<Byte>) returns (word: seq<Byte>, rest: seq<Byte>)
    ensures u == word + rest && word == FirstWord(u, d) && AfterWord(u, d) == if rest == [] then [] else rest[1..]
    ensures forall i :: 0 <= i < |word| ==> word[i] !in d
    ensures (rest != [] ==> rest[0] in d) && (word == [] && rest != [] ==> u[0] in d)
  {
    LeadingAre(u, d, false);
    word, rest := Sliced(u, Leading(u, d, false));
  }

  lemma DelimPart(rest: seq<Byte>) returns (delim: seq<Byte>, tail: seq<Byte>)
    ensures rest == delim + tail && tail == (if rest == [] then [] else rest[1..])
    ensures delim == if rest == [] then [] else [rest[0]]
  {
    delim, tail := if rest == [] then [] else [rest[0]], if rest == [] then [] else rest[1..];
  }

  lemma GapAndWord(t: seq<Byte>, d: seq<Byte>)
      returns (gap: seq<Byte>, word: seq<Byte>, delim: seq<Byte>, tail: seq<Byte>)
    ensures Cut(t, d, gap, word, delim, tail) && AfterGap(t, d) == word + (delim + tail)
    ensures Words(t, d) == if word == [] then [] else [word] + Words(tail, d)
    ensures |FirstWord(AfterGap(t, d), d)| == |word|
  {
    var u, rest;
    gap, u := GapPart(t, d);
    word, rest := WordPart(u, d);
    delim, tail := DelimPart(rest);
  }

  /** Gaps and words in turn: gaps of delimiters around words without any, and no two words without a gap. */
  ghost predicate Splits(gaps: seq<seq<Byte>>, ws: seq<seq<Byte>>, d: seq<Byte>) {
    && |gaps| == |ws| + 1
    && (forall i, j :: 0 <= i < |gaps| && 0 <= j < |gaps[i]| ==> gaps[i][j] in d)
    && (forall i, j :: 0 <= i < |ws| && 0 <= j < |ws[i]| ==> ws[i][j] !in d)
    && (forall i :: 0 <= i < |ws| ==> ws[i] != [])
    && (forall i :: 0 < i < |ws| ==> gaps[i] != [])
  }

  function Interleaved(gaps: seq<seq<Byte>>, ws: seq<seq<Byte>>): seq<Byte>
    requires |gaps| == |ws| + 1
  {
    if ws == [] then gaps[0] else gaps[0] + ws[0] + Interleaved(gaps[1..], ws[1..])
  }

  /** The words of a text are its maximal runs without delimiters: there is no other way to split it. */
  lemma {:induction false} WordsUnique(gaps: seq<seq<Byte>>, ws: seq<seq<Byte>>, d: seq<Byte>)
    requires Splits(gaps, ws, d)
    ensures Words(Interleaved(gaps, ws), d) == ws
    decreases |ws|
  {
    var t := Interleaved(gaps, ws);
    if ws == [] {
      LeadingIs(t, d, true, |t|);
    } else {
      var rest := Interleaved(gaps[1..], ws[1..]);
      StartsWithGap(gaps, ws, d);
      LeadingIs(t, d, true, |gaps[0]|);
      var u := AfterGap(t, d);
      assert u == ws[0] + rest;
      LeadingIs(u, d, false, |ws[0]|);
      WordsUnique(gaps[1..], ws[1..], d);
      if rest != [] {
        assert AfterWord(u, d) == rest[1..];
        DropDelim(rest, d);
      }
    }
  }

  lemma StartsWithGap(gaps: seq<seq<Byte>>, ws: seq<seq<Byte>>, d: seq<Byte>)
    requires Splits(gaps, ws, d) && ws != []
    ensures var rest := Interleaved(gaps[1..], ws[1..]); rest != [] ==> rest[0] in d
    ensures Splits(gaps[1..], ws[1..], d)
  {
    assert gaps[1..][0] == gaps[1];
    if |ws| > 1 {
      assert gaps[1] != [] && gaps[1][0] in d;
    }
  }

  /** A delimiter in front makes no difference. */
  lemma DropDelim(t: seq<Byte>, d: seq<Byte>)
    requires t != [] && t[0] in d
    ensures Words(t, d) == Words(t[1..], d)
  {
    assert AfterGap(t, d) == AfterGap(t[1..], d);
  }

  ghost predicate SplitsInto(t: seq<Byte>, gaps: seq<seq<Byte>>, ws: seq<seq<Byte>>, d: seq<Byte>) {
    Splits(gaps, ws, d) && Interleaved(gaps, ws) == t
  }

  /** And every text can be split like that. */
  lemma {:induction false} WordsSplit(t: seq<Byte>, d: seq<Byte>) returns (gaps: seq<seq<Byte>>)
    ensures SplitsInto(t, gaps, Words(t, d), d)
    decreases |t|
  {
    var gap, word, delim, tail := GapAndWord(t, d);
    if word == [] {
      gaps := [gap];
    } else {
      var more := WordsSplit(tail, d);
      gaps := InFront(t, gap, word, delim, tail, more, Words(tail, d), d);
    }
  }

  lemma InFront(t: seq<Byte>, gap: seq<Byte>, word: seq<Byte>, delim: seq<Byte>, tail: seq<Byte>, more: seq<seq<Byte>>,
                ws: seq<seq<Byte>>, d: seq<Byte>) returns (gaps: seq<seq<Byte>>)
    requires Cut(t, d, gap, word, delim, tail) && word != [] && SplitsInto(tail, more, ws, d)
    ensures SplitsInto(t, gaps, [word] + ws, d)
  {
    if delim == [] {
      assert ws == [];
      gaps := [gap] + more;
      assert gaps[1..] == more;
    } else {
      var longer := more[0 := delim + more[0]];
      assert longer[1..] == more[1..];
      assert Interleaved(longer, ws) == delim + tail;
      gaps := [gap] + longer;
      assert gaps[1..] == longer;
    }
    assert ([word] + ws)[1..] == ws;
    assert gap + word + (delim + tail) == t;
  }

  // ---------- strtok_r ----------

  /** `strchr`: the null at the end of the string counts as one of its characters. */
  method StrChr(d: seq<Byte>, ch: Byte) returns (at: Option<nat>)
    requires 0 !in d
    ensures at.Some? <==> ch == 0 || ch in d
    ensures at.Some? ==> at.value <= |d| && (at.value < |d| ==> d[at.value] == ch) && ch !in d[..at.value]
  {
    var i := 0;
    while i < |d|
      invariant i <= |d| && ch !in d[..i]
    {
      if d[i] == ch {
        return Some(i);
      }
      i := i + 1;
    }
    at := if ch == 0 then Some(i) else None;
  }

  /** What one call does to the buffer m: the word is cut off by a null in place of the delimiter behind it. */
  ghost predicate Tokenized(m: seq<Byte>, m': seq<Byte>, d: seq<Byte>, s: nat, token: Option<nat>, save: nat)
    requires Terminated(m, s)
  {
    var e, u := End(m, s), AfterGap(Str(m, s), d);
    if u == [] then token == None && m' == m && save == e
    else
      var p, n := e - |u|, |FirstWord(u, d)|;
      token == Some(p) && m' == m[p + n := 0] && save == if n < |u| then p + n + 1 else p + n
  }

  lemma GapStep(t: seq<Byte>, d: seq<Byte>)
    requires t != [] && t[0] in d
    ensures AfterGap(t, d) == AfterGap(t[1..], d)
  {
  }

  /** The first position from s on that is no delimiter, which may be the final null. */
  method SkipDelimiters(buf: array<Byte>, d: seq<Byte>, s: nat) returns (i: nat)
    requires Terminated(buf[..], s) && 0 !in d
    ensures s <= i <= End(buf[..], s) && buf[i..End(buf[..], s)] == AfterGap(Str(buf[..], s), d)
  {
    ghost var e := End(buf[..], s);
    i := s;
    var found := StrChr(d, buf[i]);
    while found.Some? && buf[i] != 0
      invariant s <= i <= e && (found.Some? <==> buf[i] == 0 || buf[i] in d)
      invariant AfterGap(buf[i..e], d) == AfterGap(buf[s..e], d)
      decreases e - i
    {
      GapStep(buf[i..e], d);
      assert buf[i..e][1..] == buf[i + 1..e];
      i := i + 1;
      found := StrChr(d, buf[i]);
    }
    assert i < e ==> buf[i..e][0] == buf[i];
  }

  /** The end of the word at p. */
  method SkipWord(buf: array<Byte>, d: seq<Byte>, p: nat) returns (i: nat)
    requires Terminated(buf[..], p) && 0 !in d
    ensures p <= i <= End(buf[..], p) && i - p == Leading(Str(buf[..], p), d, false)
  {
    ghost var e := End(buf[..], p);
    NoNullBefore(buf[..], p);
    i := p;
    var found := StrChr(d, buf[i]);
    while found.None?
      invariant p <= i <= e && (found.Some? <==> buf[i] == 0 || buf[i] in d)
      invariant Leading(buf[p..e], d, false) == i - p + Leading(buf[i..e], d, false)
      decreases e - i
    {
      assert buf[i..e][1..] == buf[i + 1..e];
      i := i + 1;
      found := StrChr(d, buf[i]);
    }
    assert i < e ==> buf[i..e][0] == buf[i];
  }

  lemma SameEnd(m: seq<Byte>, s: nat, i: nat)
    requires Terminated(m, s) && s <= i <= End(m, s)
    ensures End(m, i) == End(m, s)
  {
    NoNullBefore(m, s);
    EndIs(m, i, End(m, s));
  }

  /** `strtok_r`, continuing at s. */
  method StrtokR(buf: array<Byte>, d: seq<Byte>, s: nat) returns (token: Option<nat>, save: nat)
    requires Terminated(buf[..], s) && 0 !in d
    modifies buf
    ensures Tokenized(old(buf[..]), buf[..], d, s, token, save)
  {
    var p := SkipDelimiters(buf, d, s);
    SameEnd(buf[..], s, p);
    NoNullBefore(buf[..], s);
    if buf[p] == 0 {
      return None, p;
    }
    token := Some(p);
    var i := SkipWord(buf, d, p);
    if buf[i] != 0 {
      buf[i] := 0;
      save := i + 1;
    } else {
      assert buf[..][i := 0] == buf[..];
      save := i;
    }
  }

  /** The part of TokenIsWord in which there is a word. */
  lemma TokenFound(m: seq<Byte>, m': seq<Byte>, p: nat, word: seq<Byte>, delim: seq<Byte>, tail: seq<Byte>, save: nat)
    requires Terminated(m, p) && Str(m, p) == word + (delim + tail) && word != [] && m' == m[p + |word| := 0]
    requires |delim| <= 1 && (delim == [] ==> tail == []) && save == p + |word| + |delim|
    ensures p < save <= End(m, p) && Terminated(m', p) && Terminated(m', save)
    ensures End(m', p) == p + |word| && End(m', save) == End(m, p)
    ensures Str(m', p) == word && Str(m', save) == tail
  {
    var e := End(m, p);
    NoNullBefore(m, p);
    EndIs(m', p, p + |word|);
    EndIs(m', save, e);
    assert m'[p..p + |word|] == m[p..e][..|word|];
    assert m'[save..e] == m[p..e][save - p..];
  }

  /** A call leaves alone what lies before its start. */
  lemma TokenKeeps(m: seq<Byte>, m': seq<Byte>, d: seq<Byte>, s: nat, token: Option<nat>, save: nat)
    requires Terminated(m, s) && Tokenized(m, m', d, s, token, save)
    ensures s <= save && |m'| == |m| && forall i :: 0 <= i < |m| && i <= s ==> m'[i] == m[i]
  {
    var gap, word, delim, tail := GapAndWord(Str(m, s), d);
  }

  /** The call returns the first word of the text, and goes on with the others. */
  lemma TokenIsWord(m: seq<Byte>, m': seq<Byte>, d: seq<Byte>, s: nat, token: Option<nat>, save: nat)
    requires Terminated(m, s) && Tokenized(m, m', d, s, token, save)
    ensures Terminated(m', save) && s <= save && |m'| == |m|
    ensures Words(Str(m, s), d) == [] <==> token.None?
    ensures token.Some? ==>
              && s <= token.value && Terminated(m', token.value) && End(m', token.value) <= save
              && Words(Str(m, s), d) == [Str(m', token.value)] + Words(Str(m', save), d)
  {
    var e := End(m, s);
    var u := AfterGap(Str(m, s), d);
    if u == [] {
      SameEnd(m, s, e);
    } else {
      TokenCut(m, m', d, s, e - |u|, save, Str(m, s));
    }
  }

  lemma Behind(t: seq<Byte>, gap: seq<Byte>, u: seq<Byte>)
    requires t == gap + u
    ensures t[|t| - |u|..] == u
  {
  }

  lemma StrFrom(m: seq<Byte>, s: nat, p: nat)
    requires Terminated(m, s) && s <= p <= End(m, s)
    ensures End(m, p) == End(m, s) && Str(m, p) == Str(m, s)[p - s..]
  {
    SameEnd(m, s, p);
  }

  lemma TokenCut(m: seq<Byte>, m': seq<Byte>, d: seq<Byte>, s: nat, p: nat, save: nat, t: seq<Byte>)
    requires Terminated(m, s) && t == Str(m, s) && AfterGap(t, d) != [] && p == End(m, s) - |AfterGap(t, d)|
    requires Tokenized(m, m', d, s, Some(p), save)
    ensures s <= p <= save && Terminated(m', save) && Terminated(m', p) && End(m', p) <= save && |m'| == |m|
    ensures Words(t, d) == [Str(m', p)] + Words(Str(m', save), d)
  {
    var gap, word, delim, tail := GapAndWord(t, d);
    SameEnd(m, s, p);
    Behind(t, gap, word + (delim + tail));
    StrFrom(m, s, p);
    TokenFound(m, m', p, word, delim, tail, save);
  }

  lemma PartsClean(gap: seq<Byte>, word: seq<Byte>, delim: seq<Byte>, tail: seq<Byte>)
    requires 0 !in gap + (word + (delim + tail))
    ensures 0 !in word && 0 !in tail
  {
    assert 0 in tail ==> 0 in delim + tail;
    assert 0 in delim + tail ==> 0 in word + (delim + tail);
    assert 0 in word ==> 0 in word + (delim + tail);
  }

  lemma {:induction false} WordsClean(t: seq<Byte>, d: seq<Byte>)
    requires 0 !in t
    ensures forall k :: 0 <= k < |Words(t, d)| ==> 0 !in Words(t, d)[k]
    decreases |t|
  {
    var gap, word, delim, tail := GapAndWord(t, d);
    if word != [] {
      PartsClean(gap, word, delim, tail);
      WordsClean(tail, d);
    }
  }

  lemma StrClean(m: seq<Byte>, s: nat)
    requires s <= |m|
    ensures 0 !in Str(m, s)
  {
    NoNullBefore(m, s);
  }

  // ---------- The argument loop of load ----------

  /** "a a a ...": n words. */
  function Letters(n: nat): seq<Byte> {
    if n == 0 then [] else [97, 32] + Letters(n - 1)
  }

  /** So a line of 80 bytes fills argv, and one of 82 bytes has more words than it has entries. */
  lemma {:induction false} ManyWords(n: nat)
    ensures |Letters(n)| == 2 * n && |Words(Letters(n), [SPACE])| == n && (n <= ARGC_LIMIT <==> n <= 40)
    decreases n
  {
    if n > 0 {
      ManyWords(n - 1);
      var t := Letters(n);
      LeadingIs(t, [SPACE], true, 0);
      LeadingIs(t, [SPACE], false, 1);
      assert t[2..] == Letters(n - 1);
    }
  }

  lemma StrKept(m: seq<Byte>, m': seq<Byte>, p: nat, s: nat)
    requires Terminated(m, p) && End(m, p) <= s && |m'| == |m| && forall i :: 0 <= i < |m| && i <= s ==> m'[i] == m[i]
    ensures Terminated(m', p) && End(m', p) == End(m, p) && Str(m', p) == Str(m, p)
  {
    NoNullBefore(m, p);
    EndIs(m', p, End(m, p));
  }

  /** The string at p is w and ends before s or there. */
  ghost predicate IsArg(m: seq<Byte>, p: nat, w: seq<Byte>, s: nat) {
    Terminated(m, p) && Str(m, p) == w && End(m, p) <= s
  }

  /** The entries of argv are the words in done. */
  ghost predicate Found(m: seq<Byte>, argv: seq<nat>, done: seq<seq<Byte>>, save: nat) {
    |argv| == |done| && forall k :: 0 <= k < |argv| ==> IsArg(m, argv[k], done[k], save)
  }

  /** After the words in done, ws goes on with the one at arg and those of the text at save. */
  ghost predicate Coming(m: seq<Byte>, d: seq<Byte>, done: seq<seq<Byte>>, ws: seq<seq<Byte>>, arg: Option<nat>,
      save: nat) {
    && Terminated(m, save)
    && match arg
       case None => ws == done
       case Some(p) =>
         |done| < |ws| && Terminated(m, p) && End(m, p) <= save && ws == done + ([Str(m, p)] + Words(Str(m, save), d))
  }

  lemma FirstArg(m: seq<Byte>, m': seq<Byte>, d: seq<Byte>, s: nat, arg: Option<nat>, save: nat)
    requires Terminated(m, s) && Tokenized(m, m', d, s, arg, save)
    ensures Coming(m', d, [], Words(Str(m, s), d), arg, save)
  {
    TokenIsWord(m, m', d, s, arg, save);
  }

  lemma ArgsKept(m: seq<Byte>, m': seq<Byte>, argv: seq<nat>, done: seq<seq<Byte>>, s: nat, save: nat)
    requires Found(m, argv, done, s) && |m'| == |m| && s <= save && forall i :: 0 <= i < |m| && i <= s ==> m'[i] == m[i]
    ensures Found(m', argv, done, save)
  {
    forall k | 0 <= k < |argv|
      ensures IsArg(m', argv[k], done[k], save)
    {
      StrKept(m, m', argv[k], s);
    }
  }

  lemma NextComing(m: seq<Byte>, m': seq<Byte>, d: seq<Byte>, done: seq<seq<Byte>>, ws: seq<seq<Byte>>, p: nat, s: nat,
      arg: Option<nat>, save: nat)
    requires Coming(m, d, done, ws, Some(p), s) && Tokenized(m, m', d, s, arg, save)
    ensures Coming(m', d, done + [Str(m, p)], ws, arg, save)
  {
    var w, left := Str(m, p), Words(Str(m, s), d);
    TokenIsWord(m, m', d, s, arg, save);
    Shifted(done, w, left);
  }

  lemma FoundMore(m: seq<Byte>, argv: seq<nat>, done: seq<seq<Byte>>, p: nat, s: nat)
    requires Found(m, argv, done, s) && Terminated(m, p) && End(m, p) <= s
    ensures Found(m, argv + [p], done + [Str(m, p)], s)
  {
  }

  lemma FoundInAll(m: seq<Byte>, argv: seq<nat>, done: seq<seq<Byte>>, save: nat)
    requires Found(m, argv, done, save)
    ensures Found(m, argv, done, |m|)
  {
    forall k | 0 <= k < |argv|
      ensures IsArg(m, argv[k], done[k], |m|)
    {
      assert IsArg(m, argv[k], done[k], save);
    }
  }

  lemma NextFound(m: seq<Byte>, m': seq<Byte>, d: seq<Byte>, argv: seq<nat>, done: seq<seq<Byte>>, p: nat, s: nat,
      arg: Option<nat>, save: nat)
    requires Found(m, argv, done, s) && Terminated(m, p) && End(m, p) <= s
    requires Terminated(m, s) && Tokenized(m, m', d, s, arg, save)
    ensures Found(m', argv + [p], done + [Str(m, p)], save)
  {
    FoundMore(m, argv, done, p, s);
    TokenKeeps(m, m', d, s, arg, save);
    ArgsKept(m, m', argv + [p], done + [Str(m, p)], s, save);
  }

  /** One turn of the argument loop, on the bytes before and after it. */
  lemma NextTurn(m: seq<Byte>, m': seq<Byte>, d: seq<Byte>, argv: seq<nat>, done: seq<seq<Byte>>, ws: seq<seq<Byte>>,
      p: nat, s: nat, arg: Option<nat>, save: nat) returns (more: seq<seq<Byte>>)
    requires Found(m, argv, done, s) && Coming(m, d, done, ws, Some(p), s)
    requires Terminated(m, s) && Tokenized(m, m', d, s, arg, save)
    ensures Found(m', argv + [p], more, save) && Coming(m', d, more, ws, arg, save) && Terminated(m', save)
    ensures |argv| < |ws|
  {
    NextFound(m, m', d, argv, done, p, s, arg, save);
    NextComing(m, m', d, done, ws, p, s, arg, save);
    more := done + [Str(m, p)];
  }

  /** One turn of the argument loop: the word at p goes into argv and the next one is looked for. */
  method NextArgument(line: array<Byte>, argv: array<nat>, argc: nat, p: nat, at: nat, ghost done: seq<seq<Byte>>,
      ghost ws: seq<seq<Byte>>)
      returns (arg: Option<nat>, save: nat, ghost more: seq<seq<Byte>>)
    requires argc < argv.Length && Terminated(line[..], at)
    requires Found(line[..], argv[..argc], done, at) && Coming(line[..], [SPACE], done, ws, Some(p), at)
    modifies line, argv
    ensures Found(line[..], argv[..argc + 1], more, save) && Coming(line[..], [SPACE], more, ws, arg, save)
    ensures argc < |ws| && Terminated(line[..], save)
  {
    ghost var m, found := line[..], argv[..argc];
    argv[argc] := p;
    assert argv[..argc + 1] == found + [p];
    arg, save := StrtokR(line, [SPACE], at);
    more := NextTurn(m, line[..], [SPACE], found, done, ws, p, at, arg, save);
  }

  lemma FirstTurn(m: seq<Byte>, m': seq<Byte>, d: seq<Byte>, s: nat, arg: Option<nat>, save: nat)
    requires Terminated(m, s) && Tokenized(m, m', d, s, arg, save)
    ensures Coming(m', d, [], Words(Str(m, s), d), arg, save) && Terminated(m', save) && Found(m', [], [], save)
    ensures arg.Some? ==> 0 < |Words(Str(m, s), d)|
  {
    FirstArg(m, m', d, s, arg, save);
  }

  /** The words are all done when there is no next one. */
  lemma LastTurn(m: seq<Byte>, d: seq<Byte>, argv: seq<nat>, done: seq<seq<Byte>>, ws: seq<seq<Byte>>, save: nat)
    requires Coming(m, d, done, ws, None, save) && Found(m, argv, done, save)
    ensures Found(m, argv, ws, |m|)
  {
    FoundInAll(m, argv, done, save);
  }

  lemma ArgcBelow(m: seq<Byte>, d: seq<Byte>, argv: seq<nat>, done: seq<seq<Byte>>, ws: seq<seq<Byte>>, p: nat,
      save: nat)
    requires Coming(m, d, done, ws, Some(p), save) && Found(m, argv, done, save)
    ensures |argv| < |ws|
  {
  }

  /** The argument loop: argv[k] is where the k-th word of the command line now stands as a string of its own. */
  method SplitArguments(line: array<Byte>, argv: array<nat>) returns (argc: nat)
    requires Terminated(line[..], 0) && argv.Length == ARGC_LIMIT && |Words(Str(line[..], 0), [SPACE])| <= ARGC_LIMIT
    modifies line, argv
    ensures argc <= ARGC_LIMIT && Found(line[..], argv[..argc], Words(Str(old(line[..]), 0), [SPACE]), line.Length)
  {
    ghost var m, ws, done := line[..], Words(Str(line[..], 0), [SPACE]), [];
    argc := 0;
    var arg, save := StrtokR(line, [SPACE], 0);
    FirstTurn(m, line[..], [SPACE], 0, arg, save);
    assert argv[..0] == [];
    while arg.Some?
      invariant argc <= |ws| && Found(line[..], argv[..argc], done, save)
      invariant Coming(line[..], [SPACE], done, ws, arg, save) && Terminated(line[..], save)
      decreases |ws| - argc
    {
      ArgcBelow(line[..], [SPACE], argv[..argc], done, ws, arg.value, save);
      arg, save, done := NextArgument(line, argv, argc, arg.value, save, done, ws);
      argc := argc + 1;
    }
    LastTurn(line[..], [SPACE], argv[..argc], done, ws, save);
  }
}
