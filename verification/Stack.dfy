/** The initial user stack that `setup_stack` builds out of the arguments (userprog/process.c of Project 2). */
module Stack {
  import opened Common
  import opened Args

  const STACK_BASE: nat := PHYS_BASE - PAGE_SIZE
  const WORD_RANGE: nat := 0x1_0000_0000

  // ---------- The image of the stack ----------

  /** A 32-bit word in memory, and what the processor reads it as. */
  function Word(x: nat): (r: seq<Byte>)
    requires x < WORD_RANGE
    ensures |r| == 4
  {
    ToBytes(x, 4)
  }

  function WordValue(w: seq<Byte>): nat
    requires |w| == 4
  {
    w[0] as int + 0x100 * (w[1] as int) + 0x1_0000 * (w[2] as int) + 0x100_0000 * (w[3] as int)
  }

  lemma WordRoundTrip(x: nat)
    requires x < WORD_RANGE
    ensures WordValue(Word(x)) == x
  {
    assert Pow256(2) == 65536;
    BytesRoundTrip(x, 4);
    FourBytes(Word(x));
  }

  /** The strings from k on, each with its null. */
  function Strings(args: seq<seq<Byte>>, k: nat): seq<Byte>
    requires k <= |args|
    decreases |args| - k
  {
    if k == |args| then [] else args[k] + [0] + Strings(args, k + 1)
  }

  /** Where string k stands when the strings end at PHYS_BASE. */
  function Address(args: seq<seq<Byte>>, k: nat): int
    requires k <= |args|
  {
    PHYS_BASE - |Strings(args, k)|
  }

  /** The strings fit in the page. */
  predicate StringsFit(args: seq<seq<Byte>>) {
    |Strings(args, 0)| <= PAGE_SIZE
  }

  lemma {:induction false} AddressInPage(args: seq<seq<Byte>>, k: nat)
    requires StringsFit(args) && k <= |args|
    ensures STACK_BASE <= Address(args, 0) <= Address(args, k) <= PHYS_BASE
  {
    if k > 0 {
      AddressInPage(args, k - 1);
    }
  }

  function Pointers(args: seq<seq<Byte>>, k: nat): seq<Byte>
    requires StringsFit(args) && k <= |args|
    decreases |args| - k
  {
    if k == |args| then [] else
      AddressInPage(args, k);
      Word(Address(args, k)) + Pointers(args, k + 1)
  }

  function Zeros(n: nat): (r: seq<Byte>)
    ensures |r| == n
  {
    if n == 0 then [] else [0] + Zeros(n - 1)
  }

  /** Zero bytes below n bytes of strings, down to a multiple of four. */
  function Padding(n: nat): seq<Byte> {
    Zeros((PHYS_BASE - n) % 4)
  }

  function Aligned(args: seq<seq<Byte>>): seq<Byte> {
    Padding(|Strings(args, 0)|) + Strings(args, 0)
  }

  /** The pointers, a null pointer, padding and the strings. */
  function Vector(args: seq<seq<Byte>>): seq<Byte>
    requires StringsFit(args)
  {
    Pointers(args, 0) + (Word(0) + Aligned(args))
  }

  /** The whole image: return address, argc, argv, and what argv points to. */
  function Image(args: seq<seq<Byte>>): seq<Byte>
    requires StringsFit(args) && |args| < WORD_RANGE && |Vector(args)| <= PHYS_BASE
  {
    Word(0) + (Word(|args|) + (Word(PHYS_BASE - |Vector(args)|) + Vector(args)))
  }

  /** All of it fits in the one page of the stack. */
  ghost predicate Fits(args: seq<seq<Byte>>) {
    StringsFit(args) && |args| < WORD_RANGE && |Vector(args)| + 12 <= PAGE_SIZE
  }

  // ---------- Reading the stack ----------

  /** The word at address a of a stack t that ends at PHYS_BASE. */
  function WordAt(t: seq<Byte>, a: nat): nat
    requires PHYS_BASE - |t| <= a && a + 4 <= PHYS_BASE
  {
    var i := a - (PHYS_BASE - |t|);
    WordValue(t[i..i + 4])
  }

  /** The string at address a. */
  function StringAt(t: seq<Byte>, a: nat): seq<Byte>
    requires PHYS_BASE - |t| <= a <= PHYS_BASE
  {
    Str(t, a - (PHYS_BASE - |t|))
  }

  lemma {:induction false} PointersLength(args: seq<seq<Byte>>, k: nat)
    requires StringsFit(args) && k <= |args|
    ensures |Pointers(args, k)| == 4 * (|args| - k)
    decreases |args| - k
  {
    if k < |args| {
      PointersLength(args, k + 1);
    }
  }

  lemma SliceBehind(w: seq<Byte>, rest: seq<Byte>, i: nat)
    requires |w| == 4 && i + 4 <= |rest|
    ensures (w + rest)[i + 4..i + 8] == rest[i..i + 4]
  {
  }

  lemma SliceFront(w: seq<Byte>, rest: seq<Byte>)
    requires |w| == 4
    ensures (w + rest)[0..4] == w
  {
  }

  lemma {:induction false} PointersAt(args: seq<seq<Byte>>, k: nat, j: nat)
    requires StringsFit(args) && k <= j < |args|
    ensures |Pointers(args, k)| == 4 * (|args| - k) && STACK_BASE <= Address(args, j) <= PHYS_BASE
    ensures Pointers(args, k)[4 * (j - k)..4 * (j - k) + 4] == Word(Address(args, j))
    decreases j - k
  {
    PointersLength(args, k);
    PointersLength(args, k + 1);
    AddressInPage(args, k);
    AddressInPage(args, j);
    var rest, w := Pointers(args, k + 1), Word(Address(args, k));
    assert Pointers(args, k) == w + rest;
    if k < j {
      PointersAt(args, k + 1, j);
      SliceBehind(w, rest, 4 * (j - k - 1));
    } else {
      SliceFront(w, rest);
    }
  }

  lemma {:induction false} StringsEnd(args: seq<seq<Byte>>, k: nat, j: nat)
    requires k <= j <= |args|
    ensures |Strings(args, j)| <= |Strings(args, k)|
    ensures Strings(args, k)[|Strings(args, k)| - |Strings(args, j)|..] == Strings(args, j)
    decreases j - k
  {
    if k < j {
      StringsEnd(args, k + 1, j);
      assert Strings(args, k)[|args[k]| + 1..] == Strings(args, k + 1);
    }
  }

  lemma WordIn(t: seq<Byte>, pre: seq<Byte>, x: nat, post: seq<Byte>)
    requires x < WORD_RANGE && t == pre + (Word(x) + post) && |t| <= PHYS_BASE
    ensures WordAt(t, PHYS_BASE - |t| + |pre|) == x
  {
    assert t[|pre|..|pre| + 4] == Word(x);
    WordRoundTrip(x);
  }

  lemma PaddedLength(n: nat)
    ensures ((PHYS_BASE - n) % 4 + n) % 4 == 0
  {
  }

  lemma AlignedLength(args: seq<seq<Byte>>)
    ensures |Aligned(args)| % 4 == 0
  {
    PaddedLength(|Strings(args, 0)|);
  }

  lemma VectorLength(args: seq<seq<Byte>>)
    requires StringsFit(args)
    ensures |Vector(args)| == 4 * |args| + 4 + |Aligned(args)|
  {
    PointersLength(args, 0);
  }

  /** The image fits the page exactly when 4 bytes a word, 16 more, and the strings rounded up to words do. */
  lemma FitsIff(args: seq<seq<Byte>>)
    ensures Fits(args) <==> 4 * |args| + 16 + (|Strings(args, 0)| + 3) / 4 * 4 <= PAGE_SIZE
  {
    if StringsFit(args) {
      VectorLength(args);
    }
  }

  /** One word of 4080 bytes is too long. */
  lemma LongWord(word: seq<Byte>)
    requires |word| == 4080
    ensures !Fits([word])
  {
    FitsIff([word]);
    assert Strings([word], 0) == word + [0] + Strings([word], 1);
  }

  lemma ImageLength(args: seq<seq<Byte>>)
    requires Fits(args)
    ensures |Image(args)| == 12 + |Vector(args)| && |Vector(args)| == 4 * |args| + 4 + |Aligned(args)|
    ensures (PHYS_BASE - |Image(args)|) % 4 == 0
  {
    VectorLength(args);
    AlignedLength(args);
    FoursBelow(|args|, |Aligned(args)|);
  }

  lemma FoursBelow(n: nat, a: nat)
    requires a % 4 == 0
    ensures (PHYS_BASE - (12 + (4 * n + 4 + a))) % 4 == 0
  {
  }

  lemma ThreeParts(a: seq<Byte>, b: seq<Byte>, c: seq<Byte>)
    ensures a + (b + c) == [] + (a + (b + c)) == (a + b) + c
  {
  }

  lemma WordWithin(head: seq<Byte>, p: seq<Byte>, i: nat, rest: seq<Byte>)
    requires i + 4 <= |p|
    ensures head + (p + rest) == (head + p[..i]) + (p[i..i + 4] + (p[i + 4..] + rest))
  {
    assert p == p[..i] + (p[i..i + 4] + p[i + 4..]);
  }

  /** The return address, argc and argv. */
  lemma HeadReads(args: seq<seq<Byte>>)
    requires Fits(args)
    ensures var t := Image(args);
            var esp := PHYS_BASE - |t|;
            |t| >= 12 && WordAt(t, esp) == 0 && WordAt(t, esp + 4) == |args| && WordAt(t, esp + 8) == esp + 12
  {
    ImageLength(args);
    var t, argc, argv := Image(args), Word(|args|), Word(PHYS_BASE - |Vector(args)|);
    ThreeParts(Word(0), argc, argv + Vector(args));
    WordIn(t, [], 0, argc + (argv + Vector(args)));
    WordIn(t, Word(0), |args|, argv + Vector(args));
    WordIn(t, Word(0) + argc, PHYS_BASE - |Vector(args)|, Vector(args));
  }

  lemma VectorIn(args: seq<seq<Byte>>) returns (head: seq<Byte>)
    requires Fits(args)
    ensures |head| == 12 && Image(args) == head + Vector(args)
  {
    var argc, argv := Word(|args|), Word(PHYS_BASE - |Vector(args)|);
    head := Word(0) + (argc + argv);
    assert head + Vector(args) == Word(0) + (argc + (argv + Vector(args)));
  }

  lemma NullReads(args: seq<seq<Byte>>)
    requires Fits(args)
    ensures var t := Image(args);
            var esp := PHYS_BASE - |t|;
            esp + 12 + 4 * |args| + 4 <= PHYS_BASE && WordAt(t, esp + 12 + 4 * |args|) == 0
  {
    ImageLength(args);
    PointersLength(args, 0);
    var head := VectorIn(args);
    var t := Image(args);
    assert head + (Pointers(args, 0) + (Word(0) + Aligned(args))) ==
           (head + Pointers(args, 0)) + (Word(0) + Aligned(args));
    WordIn(t, head + Pointers(args, 0), 0, Aligned(args));
  }

  lemma PointerReads(args: seq<seq<Byte>>, k: nat)
    requires Fits(args) && k < |args|
    ensures var t := Image(args);
            var esp := PHYS_BASE - |t|;
            esp + 12 + 4 * k + 4 <= PHYS_BASE && WordAt(t, esp + 12 + 4 * k) == Address(args, k)
  {
    ImageLength(args);
    PointersAt(args, 0, k);
    var head := VectorIn(args);
    var t, p := Image(args), Pointers(args, 0);
    WordWithin(head, p, 4 * k, Word(0) + Aligned(args));
    WordIn(t, head + p[..4 * k], Address(args, k), p[4 * k + 4..] + (Word(0) + Aligned(args)));
  }

  lemma FirstString(t: seq<Byte>, off: nat, u: seq<Byte>, w: seq<Byte>, rest: seq<Byte>)
    requires off <= |t| && t[off..] == u && u == w + [0] + rest && 0 !in w
    ensures Str(t, off) == w
  {
    assert forall i :: off <= i < |t| ==> t[i] == u[i - off];
    EndIs(t, off, off + |w|);
    assert t[off..off + |w|] == u[..|w|];
  }

  lemma StringHere(t: seq<Byte>, a: nat, u: seq<Byte>, w: seq<Byte>, rest: seq<Byte>)
    requires |u| <= |t| <= PHYS_BASE && a == PHYS_BASE - |u| && t[|t| - |u|..] == u && u == w + [0] + rest && 0 !in w
    ensures StringAt(t, a) == w
  {
    var off := a - (PHYS_BASE - |t|);
    assert off == |t| - |u|;
    FirstString(t, off, u, w, rest);
  }

  lemma EndOfEnd(t: seq<Byte>, front: seq<Byte>, all: seq<Byte>, n: nat)
    requires t == front + all && n <= |all|
    ensures t[|t| - n..] == all[|all| - n..]
  {
  }

  lemma UnfoldStrings(args: seq<seq<Byte>>, k: nat)
    requires k < |args|
    ensures Strings(args, k) == args[k] + [0] + Strings(args, k + 1)
  {
  }

  /** String k of the strings at the end of t. */
  lemma StringIn(t: seq<Byte>, front: seq<Byte>, args: seq<seq<Byte>>, k: nat)
    requires t == front + Strings(args, 0) && |t| <= PHYS_BASE && k < |args| && 0 !in args[k]
    ensures PHYS_BASE - |t| <= Address(args, k) <= PHYS_BASE && StringAt(t, Address(args, k)) == args[k]
  {
    var u := Strings(args, k);
    StringsEnd(args, 0, k);
    EndOfEnd(t, front, Strings(args, 0), |u|);
    UnfoldStrings(args, k);
    StringHere(t, Address(args, k), u, args[k], Strings(args, k + 1));
  }

  lemma StringReads(args: seq<seq<Byte>>, k: nat)
    requires Fits(args) && k < |args| && 0 !in args[k]
    ensures var t := Image(args);
            PHYS_BASE - |t| <= Address(args, k) <= PHYS_BASE && StringAt(t, Address(args, k)) == args[k]
  {
    ImageLength(args);
    var head := VectorIn(args);
    var front := head + (Pointers(args, 0) + (Word(0) + Padding(|Strings(args, 0)|)));
    assert Image(args) == front + Strings(args, 0);
    StringIn(Image(args), front, args, k);
  }

  /** What a user program finds from its stack pointer on: return address 0, argc, and argv with a null at its end. */
  ghost predicate ShowsCount(t: seq<Byte>, argc: nat) {
    && 16 + 4 * argc <= |t| <= PHYS_BASE
    && var esp := PHYS_BASE - |t|;
       && esp % 4 == 0 && WordAt(t, esp) == 0 && WordAt(t, esp + 4) == argc && WordAt(t, esp + 8) == esp + 12
       && WordAt(t, esp + 12 + 4 * argc) == 0
  }

  /** argv[k] points to the string w on the stack. */
  ghost predicate ShowsArg(t: seq<Byte>, k: nat, w: seq<Byte>) {
    && 16 + 4 * k <= |t| <= PHYS_BASE
    && var p := WordAt(t, PHYS_BASE - |t| + 12 + 4 * k);
       PHYS_BASE - |t| <= p <= PHYS_BASE && StringAt(t, p) == w
  }

  /** A user program that reads its arguments finds those that were put there. */
  lemma ImageReads(args: seq<seq<Byte>>)
    requires Fits(args) && forall k :: 0 <= k < |args| ==> 0 !in args[k]
    ensures ShowsCount(Image(args), |args|)
    ensures forall k :: 0 <= k < |args| ==> ShowsArg(Image(args), k, args[k])
  {
    ImageLength(args);
    HeadReads(args);
    NullReads(args);
    forall k | 0 <= k < |args|
      ensures ShowsArg(Image(args), k, args[k])
    {
      PointerReads(args, k);
      StringReads(args, k);
    }
  }

  // ---------- setup_stack ----------

  /** The stack page of a new process, from STACK_BASE to PHYS_BASE, and the stack pointer. */
  class UserStack {
    const page: array<Byte>
    var esp: nat

    ghost predicate Valid()
      reads this, page
    {
      page.Length == PAGE_SIZE && STACK_BASE <= esp <= PHYS_BASE
    }

    /** What stands on the stack. */
    ghost function Contents(): seq<Byte>
      reads this, page
      requires Valid()
    {
      page[esp - STACK_BASE..]
    }

    /** A zeroed page. */
    constructor ()
      ensures Valid() && Contents() == [] && fresh(page)
    {
      page := new Byte[PAGE_SIZE](_ => 0);
      esp := PHYS_BASE;
    }

    /** Moving the stack pointer down and copying bytes to it. */
    method Push(bs: seq<Byte>)
      requires Valid() && |bs| <= esp - STACK_BASE
      modifies this, page
      ensures Valid() && Contents() == bs + old(Contents())
    {
      esp := esp - |bs|;
      var at := esp - STACK_BASE;
      var i := 0;
      while i < |bs|
        invariant i <= |bs| && Valid() && at == esp - STACK_BASE && esp == old(esp) - |bs|
        invariant page[at..at + i] == bs[..i] && page[at + |bs|..] == old(Contents())
      {
        page[at + i] := bs[i];
        i := i + 1;
      }
      ghost var m := page[..];
      assert m[at..at + |bs|] == page[at..at + |bs|] == bs;
      assert m[at + |bs|..] == page[at + |bs|..];
      TwoParts(m, at, |bs|);
      assert page[at..] == m[at..];
    }

    /** Pushing the string at p of the command line, with its null. */
    method PushString(line: array<Byte>, p: nat, ghost w: seq<Byte>)
      requires Valid() && line != page && IsArg(line[..], p, w, line.Length) && |w| + 1 <= esp - STACK_BASE
      modifies this, page
      ensures Valid() && Contents() == w + [0] + old(Contents())
    {
      var n := StrLen(line, p);
      assert line[p..p + n + 1] == w + [0];
      Push(line[p..p + n + 1]);
    }

    /** The loop that copies the strings, last one first, and notes their addresses. */
    method PushStrings(line: array<Byte>, argv: array<nat>, argc: nat, inStack: array<nat>, ghost args: seq<seq<Byte>>)
      requires Valid() && Contents() == [] && line != page && argc == |args| <= argv.Length && argc == inStack.Length
      requires argv != inStack && StringsFit(args)
      requires Found(line[..], argv[..argc], args, line.Length)
      modifies this, page, inStack
      ensures Valid() && Contents() == Strings(args, 0) && forall k :: 0 <= k < argc ==> inStack[k] == Address(args, k)
    {
      var i: nat := argc;
      while i > 0
        invariant i <= argc && Valid() && Contents() == Strings(args, i)
        invariant forall k :: i <= k < argc ==> inStack[k] == Address(args, k)
      {
        i := i - 1;
        AddressInPage(args, i);
        assert argv[i] == argv[..argc][i];
        PushString(line, argv[i], args[i]);
        inStack[i] := esp;
      }
    }

    /** Down to a multiple of four. */
    method Align()
      requires Valid()
      modifies this, page
      ensures Valid() && Contents() == Padding(|old(Contents())|) + old(Contents())
    {
      ghost var above: nat := esp % 4;
      ghost var zeros := 0;
      while esp % 4 != 0
        invariant Valid() && zeros <= above && esp % 4 == above - zeros
        invariant Contents() == Zeros(zeros) + old(Contents())
        decreases esp % 4
      {
        OneDown(esp);
        ZeroMore(zeros, old(Contents()));
        Push([0]);
        zeros := zeros + 1;
      }
      assert Zeros(zeros) == Padding(|old(Contents())|);
    }

    /** The pointers to the strings, last one first. */
    method PushPointers(inStack: array<nat>, ghost args: seq<seq<Byte>>)
      requires Valid() && StringsFit(args) && inStack.Length == |args| && esp - STACK_BASE >= 4 * |args|
      requires forall k :: 0 <= k < |args| ==> inStack[k] == Address(args, k)
      modifies this, page
      ensures Valid() && Contents() == Pointers(args, 0) + old(Contents())
    {
      var i: nat := inStack.Length;
      while i > 0
        invariant i <= inStack.Length && Valid() && Contents() == Pointers(args, i) + old(Contents())
        invariant esp - STACK_BASE >= 4 * i
      {
        i := i - 1;
        PointerMore(args, i, old(Contents()));
        Push(Word(inStack[i]));
      }
    }

    /** Strings, padding, the null pointer and the pointers. */
    method PushVector(line: array<Byte>, argv: array<nat>, argc: nat, ghost args: seq<seq<Byte>>)
      requires Valid() && Contents() == [] && line != page && argc == |args| <= argv.Length
      requires StringsFit(args) && |Vector(args)| <= PAGE_SIZE
      requires Found(line[..], argv[..argc], args, line.Length)
      modifies this, page
      ensures Valid() && Contents() == Vector(args)
    {
      PointersLength(args, 0);
      var inStack := new nat[argc];
      PushStrings(line, argv, argc, inStack, args);
      Align();
      Push(Word(0));
      PushPointers(inStack, args);
    }

    /** argv, argc and the return address. */
    method PushHead(argc: nat)
      requires Valid() && argc < WORD_RANGE && esp - STACK_BASE >= 12
      modifies this, page
      ensures Valid() && Contents() == Word(0) + (Word(argc) + (Word(old(esp)) + old(Contents())))
    {
      var pt := esp;
      Push(Word(pt));
      Push(Word(argc));
      Push(Word(0));
    }

    /** `setup_stack` once the page is installed: the stack holds the image of the arguments. */
    method Fill(line: array<Byte>, argv: array<nat>, argc: nat, ghost args: seq<seq<Byte>>)
      requires Valid() && Contents() == [] && line != page && argc == |args| <= argv.Length && Fits(args)
      requires Found(line[..], argv[..argc], args, line.Length)
      modifies this, page
      ensures Valid() && Contents() == Image(args) && esp == PHYS_BASE - |Image(args)|
    {
      PushVector(line, argv, argc, args);
      PushHead(argc);
    }
  }

  lemma PointerMore(args: seq<seq<Byte>>, k: nat, tail: seq<Byte>)
    requires StringsFit(args) && k < |args|
    ensures STACK_BASE <= Address(args, k) <= PHYS_BASE
    ensures Word(Address(args, k)) + (Pointers(args, k + 1) + tail) == Pointers(args, k) + tail
  {
    AddressInPage(args, k);
  }

  lemma TwoParts(m: seq<Byte>, at: nat, n: nat)
    requires at + n <= |m|
    ensures m[at..] == m[at..at + n] + m[at + n..]
  {
  }

  lemma OneDown(e: nat)
    requires e % 4 != 0 && e >= STACK_BASE
    ensures (e - 1) % 4 == e % 4 - 1 && e - 1 >= STACK_BASE
  {
  }

  lemma ZeroMore(n: nat, tail: seq<Byte>)
    ensures [0] + (Zeros(n) + tail) == Zeros(n + 1) + tail
  {
  }

  /** `strlen` */
  method StrLen(m: array<Byte>, p: nat) returns (n: nat)
    requires Terminated(m[..], p)
    ensures n == |Str(m[..], p)|
  {
    n := 0;
    while m[p + n] != 0
      invariant p + n <= m.Length && End(m[..], p + n) == End(m[..], p)
      decreases m.Length - p - n
    {
      n := n + 1;
    }
  }

  /**
   * The argument loop and `setup_stack` in turn, as `load` calls them: the new program finds the words of the command
   * line, in order, as its arguments.
   */
  method LoadArguments(line: array<Byte>) returns (stack: UserStack)
    requires Terminated(line[..], 0) && |Words(Str(line[..], 0), [SPACE])| <= ARGC_LIMIT
    requires Fits(Words(Str(line[..], 0), [SPACE]))
    modifies line
    ensures stack.Valid() && fresh(stack) && fresh(stack.page) && stack.esp == PHYS_BASE - |stack.Contents()|
    ensures ShowsCount(stack.Contents(), |Words(Str(old(line[..]), 0), [SPACE])|)
    ensures forall k :: 0 <= k < |Words(Str(old(line[..]), 0), [SPACE])| ==>
              ShowsArg(stack.Contents(), k, Words(Str(old(line[..]), 0), [SPACE])[k])
  {
    ghost var ws := Words(Str(line[..], 0), [SPACE]);
    StrClean(line[..], 0);
    WordsClean(Str(line[..], 0), [SPACE]);
    ImageReads(ws);
    var argv := new nat[ARGC_LIMIT];
    var argc := SplitArguments(line, argv);
    stack := new UserStack();
    stack.Fill(line, argv, argc, ws);
  }
}
