/**
 What packing a printf-style record puts into its buffer, chunk by chunk, when the record may be longer than that: the
 length goes on counting, and what does not fit is left off.
 */
module PrintfChunks {
  import opened Bytes
  import opened Framing
  import opened PrintfRecord

  /** A null-terminated string, or bytes copied as they are. */
  datatype Chunk = Cstring(chars: seq<byte>) | Block(bytes: seq<byte>)

  function Image(c: Chunk): seq<byte> {
    match c
    case Cstring(chars) => chars + [0]
    case Block(bytes) => bytes
  }

  function Images(cs: seq<Chunk>): seq<byte> {
    if cs == [] then [] else Images(cs[..|cs| - 1]) + Image(cs[|cs| - 1])
  }

  /** What of a string goes into left bytes: all of it with its null, or a shorter one, null-terminated all the same. */
  function Fitted(s: seq<byte>, left: nat): (b: seq<byte>)
    ensures |b| == if |s| + 1 <= left then |s| + 1 else left
    ensures b != [] ==> b[|b| - 1] == 0 && b[..|b| - 1] <= s
  {
    if |s| + 1 <= left then s + [0] else if left > 0 then s[..left - 1] + [0] else []
  }

  /** Where the next byte goes in a record of this length. */
  function End(len: nat): nat {
    if len <= POSIX_LOG_ENTRY_MAXLEN then len else POSIX_LOG_ENTRY_MAXLEN
  }

  /** The bytes a chunk puts into a record of this length, which of strings are to be not yet longer than the buffer. */
  function Put(len: nat, c: Chunk): (b: seq<byte>)
    ensures |b| == End(NextLen(len, c)) - End(len)
  {
    match c
    case Cstring(chars) => Fitted(chars, POSIX_LOG_ENTRY_MAXLEN - End(len))
    case Block(bytes) =>
      if len > POSIX_LOG_ENTRY_MAXLEN then []
      else if len + |bytes| <= POSIX_LOG_ENTRY_MAXLEN then bytes else bytes[..POSIX_LOG_ENTRY_MAXLEN - len]
  }

  /** Strings always count; bytes no longer once the length is beyond the buffer. */
  function NextLen(len: nat, c: Chunk): (n: nat)
    ensures len <= n
  {
    match c
    case Cstring(chars) => len + |chars| + 1
    case Block(bytes) => if len <= POSIX_LOG_ENTRY_MAXLEN then len + |bytes| else len
  }

  function LenAll(len: nat, cs: seq<Chunk>): (n: nat)
    ensures len <= n
  {
    if cs == [] then len else NextLen(LenAll(len, cs[..|cs| - 1]), cs[|cs| - 1])
  }

  function PutAll(len: nat, cs: seq<Chunk>): (b: seq<byte>)
    ensures |b| == End(LenAll(len, cs)) - End(len)
  {
    if cs == [] then []
    else PutAll(len, cs[..|cs| - 1]) + Put(LenAll(len, cs[..|cs| - 1]), cs[|cs| - 1])
  }

  /** No string is put where the length is already beyond the buffer. */
  predicate InBounds(len: nat, cs: seq<Chunk>) {
    forall i :: 0 <= i < |cs| && cs[i].Cstring? ==> LenAll(len, cs[..i]) <= POSIX_LOG_ENTRY_MAXLEN
  }

  lemma {:induction false} PutMore(len: nat, cs: seq<Chunk>, c: Chunk)
    ensures LenAll(len, cs + [c]) == NextLen(LenAll(len, cs), c)
    ensures PutAll(len, cs + [c]) == PutAll(len, cs) + Put(LenAll(len, cs), c)
    ensures Images(cs + [c]) == Images(cs) + Image(c)
  {
    assert (cs + [c])[..|cs|] == cs;
  }

  lemma {:induction false} PutBoth(len: nat, a: seq<Chunk>, b: seq<Chunk>)
    ensures LenAll(len, a + b) == LenAll(LenAll(len, a), b)
    ensures PutAll(len, a + b) == PutAll(len, a) + PutAll(LenAll(len, a), b)
    ensures Images(a + b) == Images(a) + Images(b)
    decreases |b|
  {
    if b == [] {
      assert a + b == a;
    } else {
      hide NextLen, Put, Image, PutAll, LenAll, Images;
      var front, c := b[..|b| - 1], b[|b| - 1];
      assert b == front + [c] && a + b == a + front + [c];
      PutBoth(len, a, front);
      PutMore(len, a + front, c);
      PutMore(LenAll(len, a), front, c);
      Associative(PutAll(len, a), PutAll(LenAll(len, a), front), Put(LenAll(len, a + front), c));
      Associative(Images(a), Images(front), Image(c));
    }
  }

  lemma {:induction false} InBoundsParts(len: nat, a: seq<Chunk>, b: seq<Chunk>)
    requires InBounds(len, a + b)
    ensures InBounds(len, a) && InBounds(LenAll(len, a), b)
  {
    hide LenAll;
    forall i | 0 <= i < |a| && a[i].Cstring?
      ensures LenAll(len, a[..i]) <= POSIX_LOG_ENTRY_MAXLEN
    {
      assert (a + b)[i] == a[i] && (a + b)[..i] == a[..i];
    }
    forall i | 0 <= i < |b| && b[i].Cstring?
      ensures LenAll(LenAll(len, a), b[..i]) <= POSIX_LOG_ENTRY_MAXLEN
    {
      assert (a + b)[|a| + i] == b[i] && (a + b)[..|a| + i] == a + b[..i];
      PutBoth(len, a, b[..i]);
    }
  }

  lemma {:induction false} InBoundsWhole(len: nat, a: seq<Chunk>, b: seq<Chunk>)
    requires InBounds(len, a) && InBounds(LenAll(len, a), b)
    ensures InBounds(len, a + b)
  {
    hide LenAll;
    forall i | 0 <= i < |a + b| && (a + b)[i].Cstring?
      ensures LenAll(len, (a + b)[..i]) <= POSIX_LOG_ENTRY_MAXLEN
    {
      if i < |a| {
        assert (a + b)[i] == a[i] && (a + b)[..i] == a[..i];
      } else {
        assert (a + b)[i] == b[i - |a|] && (a + b)[..i] == a + b[..i - |a|];
        PutBoth(len, a, b[..i - |a|]);
      }
    }
  }

  /** Chunks that fit are put as they are, and the length is the number of bytes. */
  lemma {:induction false} FitsWhole(len: nat, cs: seq<Chunk>)
    requires len + |Images(cs)| <= POSIX_LOG_ENTRY_MAXLEN
    ensures PutAll(len, cs) == Images(cs) && LenAll(len, cs) == len + |Images(cs)|
  {
    if cs != [] {
      FitsWhole(len, cs[..|cs| - 1]);
    }
  }

  /** The buffer is full; all but its last byte are as packed, and that byte is so too, or a null that ends a string. */
  predicate CutShort(b: seq<byte>, whole: seq<byte>) {
    && |b| <= |whole|
    && (b != [] ==>
          && b[..|b| - 1] == whole[..|b| - 1]
          && (b[|b| - 1] == whole[|b| - 1] || b[|b| - 1] == 0))
  }

  lemma {:induction false} BlocksBeyond(len: nat, cs: seq<Chunk>, c: Chunk)
    requires InBounds(len, cs + [c]) && LenAll(len, cs) > POSIX_LOG_ENTRY_MAXLEN
    ensures c.Block?
  {
    assert (cs + [c])[|cs|] == c && (cs + [c])[..|cs|] == cs;
  }

  /** Chunks that do not fit fill the buffer, and the length says so. */
  lemma {:induction false} CutsShort(len: nat, cs: seq<Chunk>)
    requires len <= POSIX_LOG_ENTRY_MAXLEN < len + |Images(cs)| && InBounds(len, cs)
    ensures LenAll(len, cs) > POSIX_LOG_ENTRY_MAXLEN && |PutAll(len, cs)| == POSIX_LOG_ENTRY_MAXLEN - len
    ensures CutShort(PutAll(len, cs), Images(cs))
  {
    var n := |cs| - 1;
    var front, c := cs[..n], cs[n];
    assert front + [c] == cs;
    InBoundsParts(len, front, [c]);
    PutMore(len, front, c);
    if len + |Images(front)| <= POSIX_LOG_ENTRY_MAXLEN {
      FitsWhole(len, front);
      LastCutShort(len + |Images(front)|, Images(front), c);
    } else {
      CutsShort(len, front);
      BlocksBeyond(len, front, c);
      assert PutAll(len, front) + [] == PutAll(len, front);
      StillCutShort(PutAll(len, front), Images(front), Image(c));
    }
  }

  lemma {:induction false} LastCutShort(len: nat, front: seq<byte>, c: Chunk)
    requires len <= POSIX_LOG_ENTRY_MAXLEN < len + |Image(c)|
    ensures CutShort(front + Put(len, c), front + Image(c))
  {
    var b, whole := front + Put(len, c), front + Image(c);
    var n := |Put(len, c)|;
    assert n > 0 ==> Put(len, c)[..n - 1] == Image(c)[..n - 1];
    if n > 0 {
      assert b[..|b| - 1] == front + Put(len, c)[..n - 1] && whole[..|b| - 1] == front + Image(c)[..n - 1];
    } else {
      assert b == front;
    }
  }

  lemma {:induction false} StillCutShort(b: seq<byte>, whole: seq<byte>, more: seq<byte>)
    requires CutShort(b, whole)
    ensures CutShort(b, whole + more)
  {
    if b != [] {
      assert (whole + more)[..|b| - 1] == whole[..|b| - 1];
    }
  }

  // ----- the chunks of a record

  function ElementChunk(e: Element): (c: Chunk)
    ensures Image(c) == PackedElement(e)
  {
    match e
    case Scalar(bytes) => Block(bytes)
    case Str(chars) => Cstring(chars)
    case Wstr(wchars) => Block(WideBytes(wchars))
  }

  function ElementChunks(es: seq<Element>): (cs: seq<Chunk>)
    ensures |cs| == |es| && forall i :: 0 <= i < |es| ==> cs[i] == ElementChunk(es[i])
  {
    seq(|es|, i requires 0 <= i < |es| => ElementChunk(es[i]))
  }

  /** The elements of an array: scalars all at once, strings one by one. */
  function ArrayChunks(es: seq<Element>, delim: seq<byte>, base: BaseType): seq<Chunk> {
    [Block(ToBytes(SIZEOF_INT, |es|)), Cstring(delim)]
    + if base.ScalarType? then [Block(PackedElements(es))] else ElementChunks(es)
  }

  function ArgChunks(a: Arg, conv: Conversion): seq<Chunk> {
    match a
    case Single(e) => [ElementChunk(e)]
    case Array(es, delim) => ArrayChunks(es, delim, conv.base)
  }

  function ArgsChunks(args: seq<Arg>, convs: seq<Conversion>): seq<Chunk>
    requires |args| == |convs|
  {
    if args == [] then []
    else ArgsChunks(args[..|args| - 1], convs[..|args| - 1]) + ArgChunks(args[|args| - 1], convs[|args| - 1])
  }

  lemma {:induction false} PackedElementsLast(es: seq<Element>)
    requires es != []
    ensures PackedElements(es) == PackedElements(es[..|es| - 1]) + PackedElement(es[|es| - 1])
    decreases |es|
  {
    hide PackedElement;
    if |es| > 1 {
      PackedElementsLast(es[1..]);
      assert es[1..][..|es| - 2] == es[..|es| - 1][1..];
    } else {
      assert es[1..] == [];
    }
  }

  lemma {:induction false} PackedArgsLast(args: seq<Arg>)
    requires args != []
    ensures PackedArgs(args) == PackedArgs(args[..|args| - 1]) + PackedArg(args[|args| - 1])
    decreases |args|
  {
    hide PackedArg;
    if |args| > 1 {
      PackedArgsLast(args[1..]);
      assert args[1..][..|args| - 2] == args[..|args| - 1][1..];
    } else {
      assert args[1..] == [];
    }
  }

  lemma {:induction false} ImageOfElements(es: seq<Element>)
    ensures Images(ElementChunks(es)) == PackedElements(es)
  {
    hide Image, PackedElement, ElementChunk;
    if es != [] {
      var n := |es| - 1;
      ImageOfElements(es[..n]);
      PackedElementsLast(es);
      assert ElementChunks(es)[..n] == ElementChunks(es[..n]);
    }
  }

  lemma {:induction false} ImageOfOne(c: Chunk)
    ensures Images([c]) == Image(c)
  {
    var none: seq<Chunk> := [];
    assert none + [c] == [c];
    PutMore(0, none, c);
  }

  lemma {:induction false} ImageOfArray(es: seq<Element>, delim: seq<byte>, base: BaseType)
    ensures Images(ArrayChunks(es, delim, base)) == PackedArg(Array(es, delim))
  {
    hide ToBytes, PackedElements, Images, ElementChunks;
    var dim, text := Block(ToBytes(SIZEOF_INT, |es|)), Cstring(delim);
    var rest := if base.ScalarType? then [Block(PackedElements(es))] else ElementChunks(es);
    ImageOfOne(dim);
    ImageOfOne(text);
    ImageOfOne(Block(PackedElements(es)));
    ImageOfElements(es);
    assert [dim, text] == [dim] + [text];
    PutBoth(0, [dim], [text]);
    PutBoth(0, [dim, text], rest);
  }

  lemma {:induction false} ImageOfArg(a: Arg, conv: Conversion)
    ensures Images(ArgChunks(a, conv)) == PackedArg(a)
  {
    match a
    case Single(e) => ImageOfOne(ElementChunk(e));
    case Array(es, delim) => ImageOfArray(es, delim, conv.base);
  }

  lemma {:induction false} ImageOfArgs(args: seq<Arg>, convs: seq<Conversion>)
    requires |args| == |convs|
    ensures Images(ArgsChunks(args, convs)) == PackedArgs(args)
  {
    hide PackedArg, ArgChunks;
    if args != [] {
      var n := |args| - 1;
      ImageOfArgs(args[..n], convs[..n]);
      PackedArgsLast(args);
      ImageOfArg(args[n], convs[n]);
      PutBoth(0, ArgsChunks(args[..n], convs[..n]), ArgChunks(args[n], convs[n]));
    }
  }

  lemma {:induction false} ArgsInBounds(len: nat, args: seq<Arg>, convs: seq<Conversion>, i: nat, k: nat)
    requires i < k <= |args| == |convs| && InBounds(len, ArgsChunks(args[..k], convs[..k]))
    ensures InBounds(LenAll(len, ArgsChunks(args[..i], convs[..i])), ArgChunks(args[i], convs[i]))
    decreases k
  {
    hide InBounds, ArgChunks, LenAll;
    var n := k - 1;
    assert args[..k][..n] == args[..n] && convs[..k][..n] == convs[..n];
    InBoundsParts(len, ArgsChunks(args[..n], convs[..n]), ArgChunks(args[n], convs[n]));
    if i < n {
      ArgsInBounds(len, args, convs, i, n);
    }
  }

  /** What stands in the size word's place: the length of the arguments, if the place is in the buffer. */
  function RecordWord(datasz: nat, format: seq<byte>, cs: seq<Chunk>): (word: seq<byte>)
    ensures |word| == SIZEOF_INT
  {
    var argsStart := datasz + |format| + 1 + SIZEOF_INT;
    ToBytes(SIZEOF_INT, if argsStart <= POSIX_LOG_ENTRY_MAXLEN then LenAll(argsStart, cs) - argsStart else 0)
  }

  /** Format, size word and arguments behind datasz bytes. */
  function RecordChunks(format: seq<byte>, word: seq<byte>, cs: seq<Chunk>): seq<Chunk> {
    [Cstring(format), Block(word)] + cs
  }

  /** The length when format and size word are in. */
  function HeadLen(datasz: nat, format: seq<byte>): nat {
    var start := datasz + |format| + 1;
    if start <= POSIX_LOG_ENTRY_MAXLEN then start + SIZEOF_INT else start
  }

  lemma {:induction false} HeadOf(datasz: nat, format: seq<byte>, word: seq<byte>)
    requires datasz <= POSIX_LOG_ENTRY_MAXLEN && |word| == SIZEOF_INT
    ensures var head := [Cstring(format), Block(word)];
            && LenAll(datasz, head) == HeadLen(datasz, format)
            && PutAll(datasz, head)
            == Put(datasz, Cstring(format)) + Put(datasz + |format| + 1, Block(word))
            && Images(head) == format + [0] + word
  {
    hide Put, LenAll, PutAll, Images;
    var none: seq<Chunk> := [];
    NothingPutYet(datasz);
    PutMore(datasz, none, Cstring(format));
    PutMore(datasz, [Cstring(format)], Block(word));
    assert none + [Cstring(format)] == [Cstring(format)];
    assert [Cstring(format)] + [Block(word)] == [Cstring(format), Block(word)];
    assert [] + Put(datasz, Cstring(format)) == Put(datasz, Cstring(format));
  }

  lemma {:induction false} RecordIs(datasz: nat, format: seq<byte>, word: seq<byte>, cs: seq<Chunk>)
    requires datasz <= POSIX_LOG_ENTRY_MAXLEN && |word| == SIZEOF_INT
    ensures var head := [Cstring(format), Block(word)];
            && LenAll(datasz, RecordChunks(format, word, cs)) == LenAll(HeadLen(datasz, format), cs)
            && PutAll(datasz, RecordChunks(format, word, cs))
            == PutAll(datasz, head) + PutAll(HeadLen(datasz, format), cs)
            && Images(RecordChunks(format, word, cs)) == format + [0] + word + Images(cs)
  {
    HeadOf(datasz, format, word);
    hide LenAll, PutAll, Images;
    PutBoth(datasz, [Cstring(format), Block(word)], cs);
  }

  /** A record that fits is packed whole, its size word the number of bytes behind it. */
  lemma {:induction false} RecordFits(datasz: nat, format: seq<byte>, args: seq<Arg>, convs: seq<Conversion>)
    requires |args| == |convs| && datasz + |Packed(format, args)| <= POSIX_LOG_ENTRY_MAXLEN
    ensures var cs := ArgsChunks(args, convs);
            var whole := RecordChunks(format, RecordWord(datasz, format, cs), cs);
            && PutAll(datasz, whole) == Packed(format, args)
            && LenAll(datasz, whole) == datasz + |Packed(format, args)|
  {
    hide LenAll, PutAll, Images, ArgsChunks, ToBytes, PackedArgs;
    var cs := ArgsChunks(args, convs);
    var word := RecordWord(datasz, format, cs);
    ImageOfArgs(args, convs);
    RecordIs(datasz, format, word, cs);
    FitsWhole(datasz + |format| + 1 + SIZEOF_INT, cs);
    FitsWhole(datasz, RecordChunks(format, word, cs));
  }

  /** One that does not is cut short at the end of the buffer, and its length says so. */
  lemma {:induction false} RecordIsCutShort(datasz: nat, format: seq<byte>, args: seq<Arg>, convs: seq<Conversion>,
      word: seq<byte>)
    requires datasz <= POSIX_LOG_ENTRY_MAXLEN < datasz + |Packed(format, args)|
    requires |args| == |convs| && |word| == SIZEOF_INT
    requires InBounds(HeadLen(datasz, format), ArgsChunks(args, convs))
    ensures var whole := RecordChunks(format, word, ArgsChunks(args, convs));
            && LenAll(datasz, whole) > POSIX_LOG_ENTRY_MAXLEN
            && |PutAll(datasz, whole)| == POSIX_LOG_ENTRY_MAXLEN - datasz
            && CutShort(PutAll(datasz, whole), format + [0] + word + PackedArgs(args))
  {
    hide LenAll, PutAll, Images, ArgsChunks, ToBytes, PackedArgs, InBounds, CutShort;
    ImageOfArgs(args, convs);
    RecordIs(datasz, format, word, ArgsChunks(args, convs));
    HeadOf(datasz, format, word);
    HeadInBounds(datasz, format, word);
    InBoundsWhole(datasz, [Cstring(format), Block(word)], ArgsChunks(args, convs));
    CutsShort(datasz, RecordChunks(format, word, ArgsChunks(args, convs)));
  }

  lemma {:induction false} NothingPutYet(len: nat)
    ensures LenAll(len, []) == len && PutAll(len, []) == [] && Images([]) == []
  {
  }

  lemma {:induction false} HeadInBounds(datasz: nat, format: seq<byte>, word: seq<byte>)
    requires datasz <= POSIX_LOG_ENTRY_MAXLEN
    ensures InBounds(datasz, [Cstring(format), Block(word)])
  {
    hide LenAll;
    NothingPutYet(datasz);
    assert [Cstring(format), Block(word)][..0] == [];
  }
}
