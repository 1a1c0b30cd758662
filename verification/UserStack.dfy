/**
 The stack a new program starts on, as load_program builds it (src/usr/loader.c; System V AMD64 ABI
 section 3.4.1): strings at the top, then the auxiliary vector, the environment and argument pointers
 and the argument count.
 */
module UserStack {

  import opened Basics
  import opened Layout

  const ARGMAX := 16
  const USTACK := 128 * 4096
  const AUX := 8                       // entries of the auxiliary vector, two words each

  // ---------------------------------------------------------------- words

  function Words(ws: seq<nat>): (s: Bytes)
    ensures |s| == 8 * |ws|
  {
    if ws == [] then [] else Le(ws[0], 8) + Words(ws[1..])
  }

  /** The word at byte offset o. */
  function WordAt(img: Bytes, o: nat): nat
    requires o + 8 <= |img|
  {
    FromLe(img[o..o + 8])
  }

  lemma {:induction false} WordsAt(ws: seq<nat>, rest: Bytes, i: nat)
    requires i < |ws| && ws[i] < U64
    ensures WordAt(Words(ws) + rest, 8 * i) == ws[i]
    decreases i
  {
    var img := Words(ws) + rest;
    if i == 0 {
      assert img[0..8] == Le(ws[0], 8);
      WordRoundTrip(ws[0]);
    } else {
      WordsAt(ws[1..], rest, i - 1);
      assert img[8..] == Words(ws[1..]) + rest;
      assert img[8 * i..8 * i + 8] == img[8..][8 * (i - 1)..8 * (i - 1) + 8];
    }
  }

  // ---------------------------------------------------------------- strings

  /** The strings one after the other, each with its zero byte. */
  function Blob(ss: seq<Bytes>): Bytes
  {
    if ss == [] then [] else ss[0] + [0] + Blob(ss[1..])
  }

  /** The address of string i, when the strings end at the top of the stack. */
  function StringAddress(ss: seq<Bytes>, i: nat): nat
    requires i <= |ss|
  {
    if |Blob(ss[i..])| <= USER_END then USER_END - |Blob(ss[i..])| else 0
  }

  lemma {:induction false} BlobSplit(a: seq<Bytes>, b: seq<Bytes>)
    ensures Blob(a + b) == Blob(a) + Blob(b)
    decreases |a|
  {
    if a == [] {
      assert a + b == b;
    } else {
      assert (a + b)[1..] == a[1..] + b;
      BlobSplit(a[1..], b);
    }
  }

  /** The bytes from the address of string i up to the first zero are string i. */
  lemma StringReadsBack(front: Bytes, ss: seq<Bytes>, i: nat)
    requires i < |ss| && 0 !in ss[i]
    ensures
      var img := front + Blob(ss);
      var o := |img| - |Blob(ss[i..])|;
      |front| <= o <= |img| && CString(img[o..]) == ss[i]
  {
    assert ss == ss[..i] + ss[i..];
    BlobSplit(ss[..i], ss[i..]);
    var img, o := front + Blob(ss), |front| + |Blob(ss[..i])|;
    assert img == (front + Blob(ss[..i])) + Blob(ss[i..]);
    assert img[o..] == Blob(ss[i..]);
    assert ss[i..][0] == ss[i] && ss[i..][1..] == ss[i + 1..];
    CStringIs(ss[i], Blob(ss[i + 1..]));
  }

  // ---------------------------------------------------------------- the image

  /** The arguments that are passed on: at most ARGMAX. */
  function Args(argv: seq<Bytes>): seq<Bytes> { if |argv| <= ARGMAX then argv else argv[..ARGMAX] }

  function Addresses(ss: seq<Bytes>, from: nat, to: nat): (r: seq<nat>)
    requires from <= to <= |ss|
    ensures |r| == to - from
  {
    seq<nat>(to - from, i requires 0 <= i < to - from => StringAddress(ss, from + i))
  }

  /** The words above the stack pointer: count, argument pointers, NULL, environment pointers, NULL, auxiliary vector. */
  function Pointers(args: seq<Bytes>, env: seq<Bytes>, aux: seq<nat>): (r: seq<nat>)
    ensures |r| == |args| + |env| + 3 + |aux|
  {
    [|args|] + (Addresses(args + env, 0, |args|) + ([0] + (Addresses(args + env, |args|, |args| + |env|) + ([0] + aux))))
  }

  /** The five entries passed in, then the stack's top and size, then the end mark. */
  function AuxWords(aux: seq<nat>): seq<nat> { aux + [6, USER_END, 7, USTACK, 0, 0] }

  /** Eight bytes of padding when the words would otherwise end at an odd multiple of eight. */
  function PadLength(bottom: nat, words: nat): nat
  {
    if (bottom / 8 - words) % 2 != 0 then 8 else 0
  }

  function Bottom(args: seq<Bytes>, env: seq<Bytes>): int { USER_END - |Blob(args + env)| }

  /** The bytes the stack takes. */
  function Size(args: seq<Bytes>, env: seq<Bytes>): nat
  {
    var words := |args| + |env| + 3 + 2 * AUX;
    |Blob(args + env)| + 8 * words + if Bottom(args, env) >= 0 then PadLength(Bottom(args, env), words) else 0
  }

  /** The stack pointer is aligned to 16 exactly as far as the strings end on a multiple of 8. */
  lemma FinalAlignment(args: seq<Bytes>, env: seq<Bytes>)
    requires Size(args, env) <= USTACK
    ensures (USER_END - Size(args, env)) % 16 == Bottom(args, env) % 8
    ensures (USER_END - Size(args, env)) % 16 == 0 <==> |Blob(args + env)| % 8 == 0
  {
    hide Blob;
    AlignNumbers(|Blob(args + env)|, |args| + |env| + 3 + 2 * AUX);
  }

  lemma AlignNumbers(n: nat, words: nat)
    requires n <= USTACK
    ensures
      var bottom := USER_END - n;
      (bottom - 8 * words - PadLength(bottom, words)) % 16 == bottom % 8
  {
    var bottom := USER_END - n;
    var half := (bottom / 8 - words - PadLength(bottom, words) / 8) / 2;
    assert bottom - 8 * words - PadLength(bottom, words) == 16 * half + bottom % 8;
  }

  /** What a program finds from its stack pointer on. */
  ghost predicate Decodes(img: Bytes, args: seq<Bytes>, env: seq<Bytes>, aux: seq<nat>)
  {
    var n, m := |args|, |env|;
    && 8 * (n + m + 3 + |aux|) <= |img|
    && WordAt(img, 0) == n
    && (forall i | 0 <= i < n :: StringAt(img, WordAt(img, 8 * (1 + i)), args[i]))
    && WordAt(img, 8 * (1 + n)) == 0
    && (forall j | 0 <= j < m :: StringAt(img, WordAt(img, 8 * (2 + n + j)), env[j]))
    && WordAt(img, 8 * (2 + n + m)) == 0
    && (forall k | 0 <= k < |aux| :: WordAt(img, 8 * (3 + n + m + k)) == aux[k])
  }

  /** From word `at` on: the five entries passed in, then (6, top of the stack), (7, its size) and (0, 0). */
  ghost predicate AuxDecodes(img: Bytes, at: nat, aux: seq<nat>)
  {
    && |aux| == 10 && 8 * (at + 16) <= |img|
    && (forall k | 0 <= k < 10 :: WordAt(img, 8 * (at + k)) == aux[k])
    && WordAt(img, 8 * (at + 10)) == 6 && WordAt(img, 8 * (at + 11)) == USER_END
    && WordAt(img, 8 * (at + 12)) == 7 && WordAt(img, 8 * (at + 13)) == USTACK
    && WordAt(img, 8 * (at + 14)) == 0 && WordAt(img, 8 * (at + 15)) == 0
  }

  lemma AuxRead(img: Bytes, args: seq<Bytes>, env: seq<Bytes>, aux: seq<nat>)
    requires |aux| == 10 && Decodes(img, args, env, AuxWords(aux))
    ensures AuxDecodes(img, 3 + |args| + |env|, aux)
  {
    hide WordAt, StringAt;
    var at, ws := 3 + |args| + |env|, AuxWords(aux);
    forall k | 0 <= k < 16
      ensures WordAt(img, 8 * (at + k)) == ws[k]
    {
      assert 8 * (3 + |args| + |env| + k) == 8 * (at + k);
    }
    assert ws[10] == 6 && ws[11] == USER_END && ws[12] == 7 && ws[13] == USTACK && ws[14] == 0 && ws[15] == 0;
    assert forall k | 0 <= k < 10 :: ws[k] == aux[k];
  }

  /** The image, which ends at the top of the stack, has that string at that address. */
  predicate StringAt(img: Bytes, address: nat, s: Bytes)
  {
    USER_END - |img| <= address <= USER_END && CString(img[address - (USER_END - |img|)..]) == s
  }

  lemma PointersAt(args: seq<Bytes>, env: seq<Bytes>, aux: seq<nat>, k: nat)
    requires k < |args| + |env| + 3 + |aux|
    ensures
      var n, m := |args|, |env|;
      Pointers(args, env, aux)[k] ==
        if k == 0 then n else if k <= n then StringAddress(args + env, k - 1) else if k == n + 1 then 0
        else if k < n + m + 2 then StringAddress(args + env, k - 2) else if k == n + m + 2 then 0 else aux[k - (n + m + 3)]
  {
  }

  /** The image decodes to what was put in. */
  lemma ImageDecodes(args: seq<Bytes>, env: seq<Bytes>, aux: seq<nat>, pad: Bytes)
    requires |Blob(args + env)| <= USTACK && |args| <= ARGMAX
    requires (forall i | 0 <= i < |args| :: 0 !in args[i]) && (forall j | 0 <= j < |env| :: 0 !in env[j]) && (forall k | 0 <= k < |aux| :: aux[k] < U64)
    ensures Decodes(Words(Pointers(args, env, aux)) + pad + Blob(args + env), args, env, aux)
  {
    hide Blob, Words, Pointers, WordAt, CString, StringAt, StringAddress;
    var ws, ss := Pointers(args, env, aux), args + env;
    var img := Words(ws) + pad + Blob(ss);
    var n, m := |args|, |env|;
    forall k | 0 <= k < |ws|
      ensures ws[k] < U64 ==> WordAt(img, 8 * k) == ws[k]
    {
      assert img == Words(ws) + (pad + Blob(ss));
      if ws[k] < U64 { WordsAt(ws, pad + Blob(ss), k); }
    }
    forall i | 0 <= i < n
      ensures StringAt(img, WordAt(img, 8 * (1 + i)), args[i])
    {
      PointersAt(args, env, aux, 1 + i);
      AddressOf(Words(ws) + pad, ss, i);
    }
    forall j | 0 <= j < m
      ensures StringAt(img, WordAt(img, 8 * (2 + n + j)), env[j])
    {
      PointersAt(args, env, aux, 2 + n + j);
      AddressOf(Words(ws) + pad, ss, n + j);
    }
    PointersAt(args, env, aux, 0);
    PointersAt(args, env, aux, n + 1);
    PointersAt(args, env, aux, n + m + 2);
    forall k | 0 <= k < |aux|
      ensures WordAt(img, 8 * (3 + n + m + k)) == aux[k]
    {
      PointersAt(args, env, aux, n + m + 3 + k);
    }
  }

  lemma AddressOf(front: Bytes, ss: seq<Bytes>, i: nat)
    requires i < |ss| && 0 !in ss[i] && |Blob(ss)| <= USTACK
    ensures StringAt(front + Blob(ss), StringAddress(ss, i), ss[i]) && StringAddress(ss, i) < U64
  {
    StringReadsBack(front, ss, i);
    assert ss == ss[..i] + ss[i..];
    BlobSplit(ss[..i], ss[i..]);
  }

  lemma BlobStep(ss: seq<Bytes>, i: nat)
    requires i < |ss|
    ensures Blob(ss[i..]) == ss[i] + [0] + Blob(ss[i + 1..]) && |Blob(ss[i..])| <= |Blob(ss)|
  {
    assert ss[i..][1..] == ss[i + 1..];
    assert ss == ss[..i] + ss[i..];
    BlobSplit(ss[..i], ss[i..]);
  }

  lemma AddressIs(ss: seq<Bytes>, i: nat, n: nat)
    requires i <= |ss| && n == |Blob(ss[i..])| <= USTACK
    ensures StringAddress(ss, i) == USER_END - n
  {
  }

  lemma NoWords(ws: seq<nat>)
    ensures Words(ws[|ws|..]) == []
  {
  }

  lemma WordsStep(ws: seq<nat>, i: nat)
    requires i < |ws|
    ensures Words(ws[i..]) == Le(ws[i], 8) + Words(ws[i + 1..])
  {
    assert ws[i..][1..] == ws[i + 1..];
  }

  lemma {:induction false} WordsSplit(a: seq<nat>, b: seq<nat>)
    ensures Words(a + b) == Words(a) + Words(b)
    decreases |a|
  {
    if a == [] {
      assert a + b == b;
    } else {
      assert (a + b)[1..] == a[1..] + b;
      WordsSplit(a[1..], b);
    }
  }

  lemma FitsParts(args: seq<Bytes>, env: seq<Bytes>)
    requires Size(args, env) <= USTACK
    ensures |Blob(env + [])| <= |Blob(args + env)| && |Blob(args + env)| + 8 * (|args| + |env| + 3 + 2 * AUX) <= USTACK && Blob([]) == []
  {
    BlobSplit(args, env);
    assert env + [] == env;
  }

  lemma EnvAddresses(args: seq<Bytes>, env: seq<Bytes>)
    ensures Addresses(env, 0, |env|) == Addresses(args + env, |args|, |args| + |env|)
  {
    forall j: nat | j < |env|
      ensures StringAddress(env, j) == StringAddress(args + env, |args| + j)
    {
      assert (args + env)[|args| + j..] == env[j..];
    }
    var a, b := Addresses(env, 0, |env|), Addresses(args + env, |args|, |args| + |env|);
    assert forall j | 0 <= j < |env| :: a[j] == StringAddress(env, j) && b[j] == StringAddress(args + env, |args| + j);
  }

  /** Pushing the groups of words one by one leaves them in the order of Pointers. */
  lemma PointerParts(args: seq<Bytes>, env: seq<Bytes>, aux: seq<nat>, ev: seq<nat>, av: seq<nat>, rest: Bytes)
    requires av == Addresses(args + env, 0, |args|) && ev == Addresses(env, 0, |env|)
    ensures Words(Pointers(args, env, aux)) + rest == Words([|args|]) + (Words(av) + (Words([0]) + (Words(ev) + (Words([0]) + (Words(aux) + rest)))))
  {
    hide Words, Addresses;
    EnvAddresses(args, env);
    WordsOver([|args|], av + ([0] + (ev + ([0] + aux))), rest);
    WordsOver(av, [0] + (ev + ([0] + aux)), rest);
    WordsOver([0], ev + ([0] + aux), rest);
    WordsOver(ev, [0] + aux, rest);
    WordsOver([0], aux, rest);
  }

  lemma WordsOver(a: seq<nat>, b: seq<nat>, rest: Bytes)
    ensures Words(a + b) + rest == Words(a) + (Words(b) + rest)
  {
    hide Words;
    WordsSplit(a, b);
  }

  // ---------------------------------------------------------------- building it

  /** The stack pages, the last byte just below USER_END, and how much of them is still free. */
  class Stack {
    const mem: array<Byte>
    var free: nat

    ghost predicate Shape()
      reads this
    {
      mem.Length == USTACK && free <= USTACK
    }

    ghost function Image(): Bytes
      reads this, mem
      requires Shape()
    {
      mem[free..]
    }

    /** The address rsp_cpy stands at. */
    function Address(): nat
      reads this
      requires Shape()
    {
      USER_END - USTACK + free
    }

    constructor (pages: array<Byte>)
      requires pages.Length == USTACK
      ensures mem == pages && Shape() && Image() == [] && Address() == USER_END
    {
      mem, free := pages, USTACK;
    }

    /** Move the pointer down and copy the bytes there. */
    method Push(s: Bytes)
      requires Shape() && |s| <= free
      modifies this, mem
      ensures Shape() && free == old(free) - |s| && Image() == s + old(Image())
    {
      ghost var top := Image();
      free := free - |s|;
      ghost var low := free;
      forall i | 0 <= i < |s| { mem[free + i] := s[i]; }
      assert mem[low..low + |s|] == s;
      assert mem[low + |s|..] == top;
      assert mem[low..] == mem[low..low + |s|] + mem[low + |s|..];
    }

    /** Push the strings, the last one first, and record their addresses. */
    method PushStrings(ss: seq<Bytes>, ghost above: seq<Bytes>) returns (addresses: seq<nat>)
      requires Shape() && Image() == Blob(above) && |Blob(ss + above)| <= USTACK
      modifies this, mem
      ensures Shape() && Image() == Blob(ss + above) && addresses == Addresses(ss + above, 0, |ss|)
    {
      hide StringAddress;
      addresses := [];
      ghost var all := ss + above;
      var i := |ss|;
      assert all[i..] == above;
      while i > 0
        invariant 0 <= i <= |ss| && Shape() && Image() == Blob(all[i..]) && addresses == Addresses(all, i, |ss|)
      {
        i := i - 1;
        BlobStep(all, i);
        Push(ss[i] + [0]);
        assert Address() == StringAddress(all, i) by { AddressIs(all, i, |Image()|); }
        addresses := [Address()] + addresses;
      }
      assert all[0..] == all;
    }

    method PushWords(ws: seq<nat>)
      requires Shape() && 8 * |ws| <= free
      modifies this, mem
      ensures Shape() && free == old(free) - 8 * |ws| && Image() == Words(ws) + old(Image())
    {
      hide Words, Le;
      ghost var top := Image();
      var i := |ws|;
      NoWords(ws);
      while i > 0
        invariant 0 <= i <= |ws| && Shape() && free == old(free) - 8 * (|ws| - i) && Image() == Words(ws[i..]) + top
      {
        i := i - 1;
        WordsStep(ws, i);
        Push(Le(ws[i], 8));
      }
      assert ws[0..] == ws;
    }

    /** The auxiliary vector, the pointers and the count, from the top down. */
    method PushPointers(args: seq<Bytes>, env: seq<Bytes>, aux: seq<nat>, avaddrs: seq<nat>, evaddrs: seq<nat>)
      requires Shape() && 8 * (|args| + |env| + 3 + |aux|) <= free
      requires avaddrs == Addresses(args + env, 0, |args|) && evaddrs == Addresses(env, 0, |env|)
      modifies this, mem
      ensures Shape() && free == old(free) - 8 * (|args| + |env| + 3 + |aux|) && Image() == Words(Pointers(args, env, aux)) + old(Image())
    {
      hide Words, Addresses;
      PointerParts(args, env, aux, evaddrs, avaddrs, Image());
      PushWords(aux);
      PushWords([0]);
      PushWords(evaddrs);
      PushWords([0]);
      PushWords(avaddrs);
      PushWords([|args|]);
    }

    /** Leave eight bytes out when the words would end at an odd multiple of eight. */
    method Align(words: nat) returns (ghost pad: Bytes)
      requires Shape() && PadLength(Address(), words) <= free
      modifies this
      ensures Shape() && free == old(free) - PadLength(old(Address()), words) && Image() == pad + old(Image())
    {
      ghost var top := free;
      if (Address() / 8 - words) % 2 != 0 { free := free - 8; }
      pad := mem[free..top];
      assert mem[free..] == mem[free..top] + mem[top..];
    }

    /** The stack-building part of load_program.  From the final stack pointer the arguments, at most
        ARGMAX of them, the environment and the auxiliary vector read back unchanged. */
    method Build(argv: seq<Bytes>, env: seq<Bytes>, aux: seq<nat>) returns (rsp: nat)
      requires Shape() && Image() == [] && |aux| == 10 && (forall k | 0 <= k < |aux| :: aux[k] < U64)
      requires (forall i | 0 <= i < |argv| :: 0 !in argv[i]) && (forall j | 0 <= j < |env| :: 0 !in env[j])
      requires Size(Args(argv), env) <= USTACK
      modifies this, mem
      ensures Shape() && rsp == Address() == USER_END - Size(Args(argv), env)
      ensures Decodes(Image(), Args(argv), env, AuxWords(aux)) && AuxDecodes(Image(), 3 + |Args(argv)| + |env|, aux)
      ensures rsp % 16 == 0 <==> |Blob(Args(argv) + env)| % 8 == 0
    {
      hide Blob, Words, Decodes, StringAddress, Addresses, Pointers, PadLength, AuxWords, AuxDecodes;
      var ac := 0;
      while ac < |argv| && ac < ARGMAX
        invariant 0 <= ac <= |argv| && ac <= ARGMAX
      {
        ac := ac + 1;
      }
      var args := argv[..ac];
      assert args == Args(argv);
      FitsParts(args, env);
      AuxOk(aux);
      assert env + [] == env;
      var evaddrs := PushStrings(env, []);
      var avaddrs := PushStrings(args, env);
      ghost var pad := Align(1 + ac + 1 + |env| + 1 + 2 * AUX);
      PushPointers(args, env, AuxWords(aux), avaddrs, evaddrs);
      rsp := Address();
      Associates(Words(Pointers(args, env, AuxWords(aux))), pad, Blob(args + env));
      ImageDecodes(args, env, AuxWords(aux), pad);
      AuxRead(Image(), args, env, aux);
      FinalAlignment(args, env);
    }
  }

  lemma Associates(a: Bytes, b: Bytes, c: Bytes)
    ensures a + (b + c) == a + b + c
  {
  }

  lemma AuxOk(aux: seq<nat>)
    requires |aux| == 10 && forall k | 0 <= k < |aux| :: aux[k] < U64
    ensures |AuxWords(aux)| == 2 * AUX && forall k | 0 <= k < 2 * AUX :: AuxWords(aux)[k] < U64
  {
  }
}
