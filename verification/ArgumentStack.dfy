/** Where exec puts a program's arguments on its stack, and what a program finds there. */
module ArgumentStack {
  import opened Basics
  import opened UserBytes

  const STACK_LOW: nat := 0xFFFC_0000

  /** The final stack pointer, the argument vector, zero if there is none, and the string
      of every argument. */
  datatype Stack = Stack(esp: int, argv: int, strings: seq<int>)

  /** Where string `n` ends at the latest. */
  function Ceiling(strings: seq<int>, n: nat): int
    requires n <= |strings|
  {
    if n == 0 then ADDRESS_END else strings[n - 1]
  }

  /** A string starts at a multiple of 4, as high as it fits under the one before. */
  predicate Fitted(arg: seq<bv8>, at: int, ceiling: int) { at % 4 == 0 && at + |arg| <= ceiling < at + |arg| + 4 }

  /** The strings one below the other, then the vector of their addresses, then five words. */
  ghost predicate Arranged(args: seq<seq<bv8>>, k: Stack) {
    && |k.strings| == |args|
    && (forall i: nat :: i < |args| ==> Fitted(args[i], k.strings[i], Ceiling(k.strings, i)))
    && k.argv == (if args == [] then 0 else k.strings[|args| - 1] - 4 * |args|)
    && k.esp == (if args == [] then ADDRESS_END else k.argv) - 20
  }

  /** What the program starts with: its strings, the vector, and from the stack pointer
      upwards the return address, the number of arguments, the vector's address, and the
      end and the start of its stack, modulo 2^32; the rest of the stack is zeros. */
  ghost predicate Started(img: Image, args: seq<seq<bv8>>, k: Stack) {
    && Arranged(args, k)
    && (forall i: nat :: i < |args| ==> HasBytes(img, k.strings[i], args[i]))
    && HasWords(img, k.argv, k.strings)
    && HasWords(img, k.esp, [0, |args|, k.argv, 0, STACK_LOW])
    && forall a: int :: STACK_LOW <= a < k.esp ==> img(a) == 0
  }

  /** Where the first `n` strings end. */
  function StackAfter(args: seq<seq<bv8>>, n: nat): int
    requires n <= |args|
  {
    if n == 0 then ADDRESS_END else (StackAfter(args, n - 1) - |args[n - 1]|) / 4 * 4
  }

  /** The final stack pointer, were there no end to the stack. */
  function FinalStack(args: seq<seq<bv8>>): int { StackAfter(args, |args|) - (if args == [] then 0 else 4 * |args|) - 20 }

  lemma FittedIsPushed(arg: seq<bv8>, at: int, ceiling: int)
    ensures Fitted(arg, at, ceiling) <==> at == (ceiling - |arg|) / 4 * 4
  {
  }

  lemma StackTop(args: seq<seq<bv8>>)
    ensures StackAfter(args, 0) == ADDRESS_END
  {
  }

  /** Any such arrangement has this stack pointer. */
  lemma {:induction false} ArrangedAfter(args: seq<seq<bv8>>, k: Stack, n: nat)
    requires Arranged(args, k) && n <= |args|
    ensures Ceiling(k.strings, n) == StackAfter(args, n)
  {
    if n > 0 {
      ArrangedAfter(args, k, n - 1);
      FittedIsPushed(args[n - 1], k.strings[n - 1], Ceiling(k.strings, n - 1));
    }
  }

  lemma ArrangedEnds(args: seq<seq<bv8>>, k: Stack)
    requires Arranged(args, k)
    ensures k.esp == FinalStack(args)
  {
    ArrangedAfter(args, k, |args|);
  }

  /** No two strings, nor a string and what is below them, share a byte. */
  lemma OwnStretches(args: seq<seq<bv8>>, k: Stack, i: nat)
    requires Arranged(args, k) && i < |args|
    ensures k.esp + 20 + 4 * |args| <= k.strings[i] && k.strings[i] + |args[i]| <= ADDRESS_END
    ensures forall j: nat :: i < j < |args| ==> k.strings[j] + |args[j]| <= k.strings[i]
  {
    hide StackAfter, Fitted;
    ArrangedEnds(args, k);
    ArrangedAfter(args, k, i);
    ArrangedAfter(args, k, i + 1);
    FittedBelow(args[i], k.strings[i], Ceiling(k.strings, i));
    StackTop(args);
    AfterDescends(args, 0, i);
    AfterDescends(args, i + 1, |args|);
    forall j: nat | i < j < |args|
      ensures k.strings[j] + |args[j]| <= k.strings[i]
    {
      ArrangedAfter(args, k, j);
      FittedBelow(args[j], k.strings[j], Ceiling(k.strings, j));
      AfterDescends(args, i + 1, j);
    }
  }

  /** And there is one. */
  lemma ArrangementExists(args: seq<seq<bv8>>) returns (k: Stack)
    ensures Arranged(args, k)
  {
    var strings: seq<int> := seq(|args|, (i: int) requires 0 <= i < |args| => StackAfter(args, i + 1));
    var argv := if args == [] then 0 else StackAfter(args, |args|) - 4 * |args|;
    k := Stack((if args == [] then ADDRESS_END else argv) - 20, argv, strings);
    forall i: nat | i < |args|
      ensures Fitted(args[i], strings[i], Ceiling(strings, i))
    {
      assert Ceiling(strings, i) == StackAfter(args, i);
      FittedIsPushed(args[i], strings[i], Ceiling(strings, i));
    }
  }

  lemma {:induction false} AfterDescends(args: seq<seq<bv8>>, m: nat, n: nat)
    requires m <= n <= |args|
    ensures StackAfter(args, n) <= StackAfter(args, m) && StackAfter(args, n) % 4 == 0
    decreases n
  {
    if n > 0 { Rounded(StackAfter(args, n - 1), |args[n - 1]|); }
    if m < n { AfterDescends(args, m, n - 1); }
  }

  lemma Rounded(top: int, size: nat)
    ensures (top - size) / 4 * 4 <= top && (top - size) / 4 * 4 % 4 == 0
  {
  }

  /** The first strings are in place, and nothing else. */
  ghost predicate Placed(img: Image, args: seq<seq<bv8>>, strings: seq<int>) {
    && |strings| <= |args|
    && (forall i: nat :: i < |strings| ==> Fitted(args[i], strings[i], Ceiling(strings, i)))
    && (forall i: nat :: i < |strings| ==> HasBytes(img, strings[i], args[i]))
    && (forall i: nat :: i < |strings| ==> Ceiling(strings, |strings|) <= strings[i])
    && Ceiling(strings, |strings|) == StackAfter(args, |strings|)
    && BlankBelow(img, Ceiling(strings, |strings|))
  }

  lemma NonePlaced(args: seq<seq<bv8>>)
    ensures Placed(Blank(), args, [])
  {
  }

  lemma PlacedBlank(img: Image, args: seq<seq<bv8>>, strings: seq<int>)
    requires Placed(img, args, strings)
    ensures BlankBelow(img, StackAfter(args, |strings|))
  {
  }

  lemma PlacedNext(img: Image, img': Image, args: seq<seq<bv8>>, strings: seq<int>, at: int)
    requires Placed(img, args, strings) && |strings| < |args| && at == (StackAfter(args, |strings|) - |args[|strings|]|) / 4 * 4
    requires Written(img, img', at, args[|strings|])
    ensures Placed(img', args, strings + [at])
  {
    hide HasBytes, Written, AgreeFrom, BlankBelow, Fitted;
    var n, all := |strings|, strings + [at];
    FittedIsPushed(args[n], at, Ceiling(strings, n));
    assert at + |args[n]| <= Ceiling(strings, n) by { FittedBelow(args[n], at, Ceiling(strings, n)); }
    WrittenHas(img, img', at, args[n]);
    assert BlankBelow(img, at) by { BlankLess(img, at, Ceiling(strings, n)); }
    forall i: nat | i < |all|
      ensures HasBytes(img', all[i], args[i]) && Fitted(args[i], all[i], Ceiling(all, i)) && at <= all[i]
    {
      assert Ceiling(all, i) == Ceiling(strings, i);
      if i < n { AgreeHas(img, img', at + |args[n]|, strings[i], args[i]); }
    }
  }

  lemma FittedBelow(arg: seq<bv8>, at: int, ceiling: int)
    requires Fitted(arg, at, ceiling)
    ensures at + |arg| <= ceiling
  {
  }

  lemma BlankLess(img: Image, low: int, high: int)
    requires BlankBelow(img, high) && low <= high
    ensures BlankBelow(img, low)
  {
  }

  /** The strings and the vector, at `argv` if there are any arguments, are in place, and
      of the five words those in `ws`. */
  ghost predicate Worded(img: Image, args: seq<seq<bv8>>, strings: seq<int>, argv: int, esp: int, ws: seq<int>) {
    && |strings| == |args|
    && (forall i: nat :: i < |args| ==> Fitted(args[i], strings[i], Ceiling(strings, i)) && HasBytes(img, strings[i], args[i]) && esp <= strings[i])
    && (if args == [] then argv == 0 && esp + 4 * |ws| == ADDRESS_END else argv == esp + 4 * |ws| == strings[|args| - 1] - 4 * |args|)
    && HasWords(img, argv, strings) && HasWords(img, esp, ws) && BlankBelow(img, esp) && esp + 4 * |ws| == FinalStack(args) + 20
  }

  lemma VectorPlaced(img: Image, img': Image, args: seq<seq<bv8>>, strings: seq<int>, argv: int)
    requires Placed(img, args, strings) && |strings| == |args| > 0 && argv == StackAfter(args, |args|) - 4 * |args|
    requires Written(img, img', argv, Vector(strings))
    ensures Worded(img', args, strings, argv, argv, [])
  {
    hide HasBytes, HasWords, Written, AgreeFrom, BlankBelow, Fitted, Vector;
    NoneHeld(img', argv);
    var high := Ceiling(strings, |args|);
    WrittenHas(img, img', argv, Vector(strings));
    VectorHas(img', argv, strings);
    BlankLess(img, argv, high);
    forall i: nat | i < |args|
      ensures HasBytes(img', strings[i], args[i])
    {
      AgreeHas(img, img', high, strings[i], args[i]);
    }
  }

  lemma NoVector(img: Image, args: seq<seq<bv8>>)
    requires Placed(img, args, []) && args == []
    ensures Worded(img, args, [], 0, ADDRESS_END, [])
  {
  }

  lemma WordedNext(img: Image, img': Image, args: seq<seq<bv8>>, strings: seq<int>, argv: int, esp: int, ws: seq<int>, w: int)
    requires Worded(img, args, strings, argv, esp, ws) && Written(img, img', esp - 4, WordBytes(w))
    ensures Worded(img', args, strings, argv, esp - 4, [w] + ws)
  {
    hide HasBytes, HasWords, Written, AgreeFrom, BlankBelow, Fitted, WordBytes;
    WrittenHas(img, img', esp - 4, WordBytes(w));
    WordNext(img, img', esp, ws, w);
    BlankLess(img, esp - 4, esp);
    if args == [] {
      assert HasWords(img', argv, strings) by { NoneHeld(img', argv); }
    } else {
      AgreeWords(img, img', esp, argv, strings);
    }
    forall i: nat | i < |args|
      ensures HasBytes(img', strings[i], args[i])
    {
      AgreeHas(img, img', esp, strings[i], args[i]);
    }
  }

  lemma NoneHeld(img: Image, low: int)
    ensures HasWords(img, low, [])
  {
  }

  /** What is written below the stack changes nothing of this. */
  lemma StillStarted(img: Image, img': Image, args: seq<seq<bv8>>, k: Stack)
    requires Started(img, args, k) && k.esp >= STACK_LOW && AgreeFrom(img, img', STACK_LOW)
    ensures Started(img', args, k)
  {
    hide HasBytes, HasWords, Fitted, WordBytes;
    forall i: nat | i < |args|
      ensures k.esp <= k.strings[i] && HasBytes(img', k.strings[i], args[i])
    {
      OwnStretches(args, k, i);
      AgreeHas(img, img', STACK_LOW, k.strings[i], args[i]);
    }
    if args == [] { NoneHeld(img', k.argv); } else { AgreeWords(img, img', STACK_LOW, k.argv, k.strings); }
    AgreeWords(img, img', STACK_LOW, k.esp, [0, |args|, k.argv, 0, STACK_LOW]);
  }

  lemma WordedBlank(img: Image, args: seq<seq<bv8>>, strings: seq<int>, argv: int, esp: int, ws: seq<int>)
    requires Worded(img, args, strings, argv, esp, ws)
    ensures BlankBelow(img, esp) && esp + 4 * |ws| == FinalStack(args) + 20
  {
  }

  lemma WordedStarted(img: Image, args: seq<seq<bv8>>, strings: seq<int>, argv: int, esp: int)
    requires Worded(img, args, strings, argv, esp, [0, |args|, argv, 0, STACK_LOW])
    ensures Started(img, args, Stack(esp, argv, strings)) && esp == FinalStack(args)
  {
  }
}
