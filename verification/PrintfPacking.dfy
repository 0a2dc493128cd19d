/**
 Packing a printf-style record into a buffer, with the size word patched in afterwards, and collecting it again. Packing
 is proved to put what PrintfChunks says, which is PrintfRecord's record where that fits.
 */
module PrintfPacking {
  import opened Options
  import opened Bytes
  import opened Framing
  import opened PrintfRecord
  import opened PrintfChunks

  /** b was written at d, and nothing else changed. */
  predicate Wrote(was: seq<byte>, buf: seq<byte>, d: nat, b: seq<byte>) {
    |buf| == |was| && d + |b| <= |was| && buf == was[..d] + b + was[d + |b|..]
  }

  lemma {:induction false} WroteNothing(was: seq<byte>, d: nat)
    requires d <= |was|
    ensures Wrote(was, was, d, [])
  {
  }

  lemma {:induction false} WroteOn(was: seq<byte>, mid: seq<byte>, buf: seq<byte>, d: nat, a: seq<byte>, b: seq<byte>)
    requires Wrote(was, mid, d, a) && Wrote(mid, buf, d + |a|, b)
    ensures Wrote(was, buf, d, a + b)
  {
    assert mid[..d + |a|] == was[..d] + a;
    assert mid[d + |a| + |b|..] == was[d + |a| + |b|..];
  }

  /** Overwriting part of what was written. */
  lemma {:induction false} WroteOver(was: seq<byte>, mid: seq<byte>, buf: seq<byte>, d: nat, a: seq<byte>,
      x: seq<byte>, y: seq<byte>, c: seq<byte>)
    requires |x| == |y| && Wrote(was, mid, d, a + x + c) && Wrote(mid, buf, d + |a|, y)
    ensures Wrote(was, buf, d, a + y + c)
  {
    assert mid[..d + |a|] == was[..d] + a;
    assert mid[d + |a| + |y|..] == c + was[d + |a| + |x| + |c|..];
  }

  // ---------------------------------------------------------------------------------------------------------
  // Packing

  /** Copies what there is room for. The length counts on past the buffer's end once, and stands still from then on. */
  method MemcpyEx(databuf: array<byte>, d: nat, src: seq<byte>, buflen: nat) returns (nb: nat, newlen: nat)
    requires databuf.Length == POSIX_LOG_ENTRY_MAXLEN && d <= POSIX_LOG_ENTRY_MAXLEN && d <= buflen
    modifies databuf
    ensures newlen == if buflen <= POSIX_LOG_ENTRY_MAXLEN then buflen + |src| else buflen
    ensures nb == if buflen + |src| <= POSIX_LOG_ENTRY_MAXLEN then |src|
                  else if buflen <= POSIX_LOG_ENTRY_MAXLEN then POSIX_LOG_ENTRY_MAXLEN - buflen else 0
    ensures nb <= |src| && Wrote(old(databuf[..]), databuf[..], d, src[..nb])
  {
    newlen := buflen + |src|;
    if newlen > POSIX_LOG_ENTRY_MAXLEN {
      if buflen <= POSIX_LOG_ENTRY_MAXLEN {
        nb := POSIX_LOG_ENTRY_MAXLEN - buflen;
      } else {
        assert src[..0] == [];
        return 0, buflen;
      }
    } else {
      nb := |src|;
    }
    Copy(databuf, d, src[..nb]);
  }

  method Copy(databuf: array<byte>, d: nat, src: seq<byte>)
    requires d + |src| <= databuf.Length
    modifies databuf
    ensures Wrote(old(databuf[..]), databuf[..], d, src)
  {
    forall i | 0 <= i < |src| {
      databuf[d + i] := src[i];
    }
  }

  /** Packs a string with its null, cutting it short at the end of the buffer; the length is that of the whole. */
  method PackString(databuf: array<byte>, d: nat, s: seq<byte>, reclen: nat) returns (d': nat, reclen': nat)
    requires databuf.Length == POSIX_LOG_ENTRY_MAXLEN && d == reclen <= POSIX_LOG_ENTRY_MAXLEN
    modifies databuf
    ensures d' == End(reclen') && reclen' == NextLen(reclen, Cstring(s)) == reclen + |s| + 1
    ensures Wrote(old(databuf[..]), databuf[..], d, Put(reclen, Cstring(s)))
  {
    var slen := |s| + 1;
    var bytesLeft := POSIX_LOG_ENTRY_MAXLEN - reclen;
    reclen' := reclen + slen;
    d' := d;
    if slen <= bytesLeft {
      Copy(databuf, d, s + [0]);
      d' := d + slen;
    } else if bytesLeft > 0 {
      Copy(databuf, d, s[..bytesLeft - 1] + [0]);
      d' := d + bytesLeft;
    }
  }

  method PackBytes(databuf: array<byte>, d: nat, b: seq<byte>, reclen: nat) returns (d': nat, reclen': nat)
    requires databuf.Length == POSIX_LOG_ENTRY_MAXLEN && d == End(reclen)
    modifies databuf
    ensures d' == End(reclen') && reclen' == NextLen(reclen, Block(b))
    ensures Wrote(old(databuf[..]), databuf[..], d, Put(reclen, Block(b)))
  {
    var nb;
    nb, reclen' := MemcpyEx(databuf, d, b, reclen);
    d' := d + nb;
    assert b[..|b|] == b && b[..0] == [];
  }

  /** Packs a wide string, of which what does not fit is left off, its null included. */
  method PackWstring(databuf: array<byte>, d: nat, ws: seq<nat>, reclen: nat) returns (d': nat, reclen': nat)
    requires databuf.Length == POSIX_LOG_ENTRY_MAXLEN && d == End(reclen)
    modifies databuf
    ensures d' == End(reclen') && reclen' == NextLen(reclen, Block(WideBytes(ws)))
    ensures Wrote(old(databuf[..]), databuf[..], d, Put(reclen, Block(WideBytes(ws))))
  {
    d', reclen' := PackBytes(databuf, d, WideBytes(ws), reclen);
  }

  method PackElement(databuf: array<byte>, d: nat, e: Element, reclen: nat) returns (d': nat, reclen': nat)
    requires databuf.Length == POSIX_LOG_ENTRY_MAXLEN && d == End(reclen)
    requires ElementChunk(e).Cstring? ==> reclen <= POSIX_LOG_ENTRY_MAXLEN
    modifies databuf
    ensures d' == End(reclen') && reclen' == NextLen(reclen, ElementChunk(e))
    ensures Wrote(old(databuf[..]), databuf[..], d, Put(reclen, ElementChunk(e)))
  {
    match e
    case Scalar(bytes) => d', reclen' := PackBytes(databuf, d, bytes, reclen);
    case Str(chars) => d', reclen' := PackString(databuf, d, chars, reclen);
    case Wstr(wchars) => d', reclen' := PackWstring(databuf, d, wchars, reclen);
  }

  /** Strings of an array, one by one. */
  method PackStrings(databuf: array<byte>, d: nat, es: seq<Element>, reclen: nat) returns (d': nat, reclen': nat)
    requires databuf.Length == POSIX_LOG_ENTRY_MAXLEN && d == End(reclen) && InBounds(reclen, ElementChunks(es))
    modifies databuf
    ensures d' == End(reclen') && reclen' == LenAll(reclen, ElementChunks(es))
    ensures Wrote(old(databuf[..]), databuf[..], d, PutAll(reclen, ElementChunks(es)))
  {
    hide Wrote, Put, NextLen, LenAll, PutAll, ElementChunk, InBounds, End;
    ghost var was, cs := databuf[..], ElementChunks(es);
    d', reclen' := d, reclen;
    NothingPut(was, reclen);
    var i := 0;
    while i < |es|
      invariant i <= |es| && d' == End(reclen') && reclen' == LenAll(reclen, cs[..i])
      invariant Wrote(was, databuf[..], d, PutAll(reclen, cs[..i]))
    {
      ghost var mid := databuf[..];
      StringInBounds(reclen, cs, i);
      d', reclen' := PackElement(databuf, d', es[i], reclen');
      assert cs[..i + 1] == cs[..i] + [cs[i]];
      ChunkPut(was, mid, databuf[..], reclen, cs[..i], cs[i]);
      i := i + 1;
    }
    assert cs[..i] == cs;
  }

  method PackArray(databuf: array<byte>, d: nat, reclen: nat, es: seq<Element>, delim: seq<byte>, base: BaseType)
    returns (d': nat, reclen': nat)
    requires databuf.Length == POSIX_LOG_ENTRY_MAXLEN && d == End(reclen)
    requires InBounds(reclen, ArrayChunks(es, delim, base))
    modifies databuf
    ensures d' == End(reclen') && reclen' == LenAll(reclen, ArrayChunks(es, delim, base))
    ensures Wrote(old(databuf[..]), databuf[..], d, PutAll(reclen, ArrayChunks(es, delim, base)))
  {
    hide Wrote, Put, LenAll, PutAll, InBounds, ToBytes, PackedElements, ElementChunks;
    ghost var was, dim, text := databuf[..], Block(ToBytes(SIZEOF_INT, |es|)), Cstring(delim);
    ghost var none: seq<Chunk> := [];
    ArrayInBounds(reclen, es, delim, base);
    NothingPut(was, reclen);
    d', reclen' := PackBytes(databuf, d, ToBytes(SIZEOF_INT, |es|), reclen);
    ChunkPut(was, was, databuf[..], reclen, none, dim);
    assert none + [dim] == [dim];
    ghost var mid := databuf[..];
    d', reclen' := PackString(databuf, d', delim, reclen');
    ChunkPut(was, mid, databuf[..], reclen, [dim], text);
    assert [dim] + [text] == [dim, text];
    mid := databuf[..];
    if base.ScalarType? {
      d', reclen' := PackBytes(databuf, d', PackedElements(es), reclen');
      ChunkPut(was, mid, databuf[..], reclen, [dim, text], Block(PackedElements(es)));
    } else {
      d', reclen' := PackStrings(databuf, d', es, reclen');
      ChunksPut(was, mid, databuf[..], reclen, [dim, text], ElementChunks(es));
    }
  }

  /** Nothing was put yet. */
  lemma {:induction false} NothingPut(was: seq<byte>, len: nat)
    requires |was| == POSIX_LOG_ENTRY_MAXLEN
    ensures Wrote(was, was, End(len), PutAll(len, [])) && LenAll(len, []) == len
  {
    NothingPutYet(len);
    WroteNothing(was, End(len));
  }

  /** One more chunk was put behind others. */
  lemma {:induction false} ChunkPut(was: seq<byte>, mid: seq<byte>, buf: seq<byte>, len: nat, cs: seq<Chunk>, c: Chunk)
    requires Wrote(was, mid, End(len), PutAll(len, cs))
    requires Wrote(mid, buf, End(LenAll(len, cs)), Put(LenAll(len, cs), c))
    ensures Wrote(was, buf, End(len), PutAll(len, cs + [c])) && LenAll(len, cs + [c]) == NextLen(LenAll(len, cs), c)
  {
    hide Wrote, Put, LenAll, PutAll, NextLen;
    PutMore(len, cs, c);
    WroteOn(was, mid, buf, End(len), PutAll(len, cs), Put(LenAll(len, cs), c));
  }

  lemma {:induction false} ChunksPut(was: seq<byte>, mid: seq<byte>, buf: seq<byte>, len: nat, a: seq<Chunk>,
      b: seq<Chunk>)
    requires Wrote(was, mid, End(len), PutAll(len, a))
    requires Wrote(mid, buf, End(LenAll(len, a)), PutAll(LenAll(len, a), b))
    ensures Wrote(was, buf, End(len), PutAll(len, a + b)) && LenAll(len, a + b) == LenAll(LenAll(len, a), b)
  {
    hide Wrote, LenAll, PutAll;
    PutBoth(len, a, b);
    WroteOn(was, mid, buf, End(len), PutAll(len, a), PutAll(LenAll(len, a), b));
  }

  lemma {:induction false} StringInBounds(len: nat, cs: seq<Chunk>, i: nat)
    requires InBounds(len, cs) && i < |cs|
    ensures cs[i].Cstring? ==> LenAll(len, cs[..i]) <= POSIX_LOG_ENTRY_MAXLEN
  {
  }

  lemma {:induction false} ArrayInBounds(len: nat, es: seq<Element>, delim: seq<byte>, base: BaseType)
    requires InBounds(len, ArrayChunks(es, delim, base))
    ensures var dim := Block(ToBytes(SIZEOF_INT, |es|));
            && LenAll(len, [dim]) <= POSIX_LOG_ENTRY_MAXLEN
            && (!base.ScalarType? ==> InBounds(LenAll(len, [dim, Cstring(delim)]), ElementChunks(es)))
  {
    hide LenAll, ToBytes, PackedElements, ElementChunks;
    var dim, cs := Block(ToBytes(SIZEOF_INT, |es|)), ArrayChunks(es, delim, base);
    assert cs[1] == Cstring(delim) && cs[..1] == [dim];
    InBoundsParts(len, [dim, Cstring(delim)], cs[2..]);
  }

  /** The first conversion that has no type, or their number. */
  function FirstUntyped(convs: seq<Conversion>): (k: nat)
    ensures k <= |convs| && (k < |convs| ==> convs[k].base.NoType? && !convs[k].isArray)
    ensures forall i :: 0 <= i < k ==> !(convs[i].base.NoType? && !convs[i].isArray)
  {
    if convs == [] || (convs[0].base.NoType? && !convs[0].isArray) then 0 else 1 + FirstUntyped(convs[1..])
  }

  method PackArg(databuf: array<byte>, d: nat, a: Arg, conv: Conversion, reclen: nat) returns (d': nat, reclen': nat)
    requires databuf.Length == POSIX_LOG_ENTRY_MAXLEN && d == End(reclen)
    requires ArgFits(a, conv) && InBounds(reclen, ArgChunks(a, conv))
    modifies databuf
    ensures d' == End(reclen') && reclen' == LenAll(reclen, ArgChunks(a, conv))
    ensures Wrote(old(databuf[..]), databuf[..], d, PutAll(reclen, ArgChunks(a, conv)))
  {
    hide Wrote, Put, LenAll, PutAll, InBounds, ArrayChunks, ElementChunk, NextLen;
    if conv.isArray {
      d', reclen' := PackArray(databuf, d, reclen, a.elems, a.delim, conv.base);
    } else {
      ghost var was, none: seq<Chunk> := databuf[..], [];
      NothingPut(was, reclen);
      StringInBounds(reclen, [ElementChunk(a.elem)], 0);
      assert [ElementChunk(a.elem)][..0] == none;
      d', reclen' := PackElement(databuf, d, a.elem, reclen);
      ChunkPut(was, was, databuf[..], reclen, none, ElementChunk(a.elem));
      assert none + [ElementChunk(a.elem)] == [ElementChunk(a.elem)];
    }
  }

  /** Packs the arguments up to the first untyped conversion; status says whether there was one. */
  method PackArgs(databuf: array<byte>, d: nat, args: seq<Arg>, convs: seq<Conversion>, reclen: nat)
    returns (status: Outcome, reclen': nat)
    requires databuf.Length == POSIX_LOG_ENTRY_MAXLEN && d == End(reclen) && |args| == |convs|
    requires var k := FirstUntyped(convs);
      ArgsFit(args[..k], convs[..k]) && InBounds(reclen, ArgsChunks(args[..k], convs[..k]))
    modifies databuf
    ensures status == if FirstUntyped(convs) < |convs| then Inval else Success
    ensures var k := FirstUntyped(convs);
      && reclen' == LenAll(reclen, ArgsChunks(args[..k], convs[..k]))
      && Wrote(old(databuf[..]), databuf[..], d, PutAll(reclen, ArgsChunks(args[..k], convs[..k])))
  {
    hide Wrote, LenAll, PutAll, InBounds, ArgChunks, ArgFits, End;
    ghost var k, was := FirstUntyped(convs), databuf[..];
    var d' := d;
    reclen' := reclen;
    NothingPut(was, reclen);
    var i := 0;
    while i < |convs|
      invariant i <= k && d' == End(reclen') && reclen' == LenAll(reclen, ArgsChunks(args[..i], convs[..i]))
      invariant Wrote(was, databuf[..], d, PutAll(reclen, ArgsChunks(args[..i], convs[..i])))
    {
      if convs[i].base.NoType? && !convs[i].isArray {
        return Inval, reclen';
      }
      assert args[..k][i] == args[i] && convs[..k][i] == convs[i];
      ArgsInBounds(reclen, args, convs, i, k);
      ghost var mid := databuf[..];
      d', reclen' := PackArg(databuf, d', args[i], convs[i], reclen');
      assert args[..i + 1][..i] == args[..i] && convs[..i + 1][..i] == convs[..i];
      ChunksPut(was, mid, databuf[..], reclen, ArgsChunks(args[..i], convs[..i]), ArgChunks(args[i], convs[i]));
      i := i + 1;
    }
    return Success, reclen';
  }

  /**
   Packs format and arguments behind the datasz bytes that are there. parsed is what parsing the format gave. The
   size word is packed as zero and patched when the arguments are in. A record that does not fit is cut short at the
   end of the buffer; no string is to follow where its length is beyond that.
   */
  method PackFormatAndArgs(format: seq<byte>, parsed: Option<seq<Segment>>, args: seq<Arg>, databuf: array<byte>,
      datasz: nat)
    returns (status: Outcome, newsz: nat)
    requires databuf.Length == POSIX_LOG_ENTRY_MAXLEN && datasz <= POSIX_LOG_ENTRY_MAXLEN
    requires parsed.Some? ==>
      var convs := Conversions(parsed.value);
      var k := FirstUntyped(convs);
      && |args| == |convs| && ArgsFit(args[..k], convs[..k])
      && InBounds(HeadLen(datasz, format), ArgsChunks(args[..k], convs[..k]))
    modifies databuf
    ensures status == Inval <==> parsed.None? || FirstUntyped(Conversions(parsed.value)) < |args|
    ensures status == Inval ==> newsz == datasz
    ensures status != Inval ==>
      status == if datasz + |Packed(format, args)| <= POSIX_LOG_ENTRY_MAXLEN then Success else Msgsize
    ensures status == Success ==>
      newsz == datasz + |Packed(format, args)| && Wrote(old(databuf[..]), databuf[..], datasz, Packed(format, args))
    ensures status == Msgsize ==>
      var cs := ArgsChunks(args, Conversions(parsed.value));
      && newsz == LenAll(HeadLen(datasz, format), cs) > POSIX_LOG_ENTRY_MAXLEN
      && CutShort(databuf[datasz..], format + [0] + RecordWord(datasz, format, cs) + PackedArgs(args))
    ensures databuf[..datasz] == old(databuf[..datasz])
  {
    hide Wrote, LenAll, PutAll, InBounds, PackedArgs, ToBytes, ArgsFit, ArgsChunks, CutShort, RecordWord, Put,
         RecordChunks, ArgFits, FirstUntyped, Conversions;
    if parsed.None? {
      WroteNothing(databuf[..], datasz);
      return Inval, datasz;
    }
    var convs := Conversions(parsed.value);
    ghost var was, zero, k := databuf[..], ToBytes(SIZEOF_INT, 0), FirstUntyped(convs);
    ghost var cs := ArgsChunks(args[..k], convs[..k]);
    var d, reclen := PackString(databuf, datasz, format, datasz);
    var argszGoesHere := reclen;
    ghost var mid := databuf[..];
    d, reclen := PackBytes(databuf, d, ToBytes(SIZEOF_INT, 0), reclen);
    HeadPut(was, mid, databuf[..], datasz, format, zero);
    var argsStartHere := reclen;
    mid := databuf[..];
    status, reclen := PackArgs(databuf, d, args, convs, reclen);
    RecordPut(was, mid, databuf[..], datasz, format, zero, cs);
    if status != Success {
      return Inval, datasz;
    }
    if argszGoesHere <= POSIX_LOG_ENTRY_MAXLEN - SIZEOF_INT {
      mid := databuf[..];
      WordIs(datasz, format, cs);
      Copy(databuf, argszGoesHere, ToBytes(SIZEOF_INT, reclen - argsStartHere));
      WordPatched(was, mid, databuf[..], datasz, format, cs);
    } else {
      WordLeft(datasz, format, cs);
    }
    assert args[..k] == args && convs[..k] == convs;
    newsz := reclen;
    status := if reclen > POSIX_LOG_ENTRY_MAXLEN then Msgsize else Success;
    RecordPacked(was, databuf[..], datasz, format, args, convs);
  }

  lemma {:induction false} HeadPut(was: seq<byte>, mid: seq<byte>, buf: seq<byte>, datasz: nat, format: seq<byte>,
      word: seq<byte>)
    requires |was| == POSIX_LOG_ENTRY_MAXLEN && datasz <= POSIX_LOG_ENTRY_MAXLEN && |word| == SIZEOF_INT
    requires Wrote(was, mid, datasz, Put(datasz, Cstring(format)))
    requires Wrote(mid, buf, End(datasz + |format| + 1), Put(datasz + |format| + 1, Block(word)))
    ensures Wrote(was, buf, datasz, PutAll(datasz, [Cstring(format), Block(word)])) && buf[..datasz] == was[..datasz]
    ensures LenAll(datasz, [Cstring(format), Block(word)]) == HeadLen(datasz, format)
  {
    hide Put, LenAll, PutAll;
    HeadOf(datasz, format, word);
    WroteOn(was, mid, buf, datasz, Put(datasz, Cstring(format)), Put(datasz + |format| + 1, Block(word)));
  }

  lemma {:induction false} RecordPut(was: seq<byte>, mid: seq<byte>, buf: seq<byte>, datasz: nat, format: seq<byte>,
      word: seq<byte>, cs: seq<Chunk>)
    requires |was| == POSIX_LOG_ENTRY_MAXLEN && datasz <= POSIX_LOG_ENTRY_MAXLEN && |word| == SIZEOF_INT
    requires Wrote(was, mid, datasz, PutAll(datasz, [Cstring(format), Block(word)]))
    requires Wrote(mid, buf, End(HeadLen(datasz, format)), PutAll(HeadLen(datasz, format), cs))
    ensures Wrote(was, buf, datasz, PutAll(datasz, RecordChunks(format, word, cs))) && buf[..datasz] == was[..datasz]
    ensures LenAll(datasz, RecordChunks(format, word, cs)) == LenAll(HeadLen(datasz, format), cs)
  {
    hide LenAll, PutAll, Wrote;
    HeadOf(datasz, format, word);
    RecordIs(datasz, format, word, cs);
    ChunksPut(was, mid, buf, datasz, [Cstring(format), Block(word)], cs);
    WroteKeeps(was, buf, datasz, PutAll(datasz, RecordChunks(format, word, cs)));
  }

  /** Where the size word's place is in the buffer, it is overwritten. */
  lemma {:induction false} WordPatched(was: seq<byte>, mid: seq<byte>, buf: seq<byte>, datasz: nat, format: seq<byte>,
      cs: seq<Chunk>)
    requires |was| == POSIX_LOG_ENTRY_MAXLEN && datasz + |format| + 1 + SIZEOF_INT <= POSIX_LOG_ENTRY_MAXLEN
    requires Wrote(was, mid, datasz, PutAll(datasz, RecordChunks(format, ToBytes(SIZEOF_INT, 0), cs)))
    requires Wrote(mid, buf, datasz + |format| + 1, RecordWord(datasz, format, cs))
    ensures Wrote(was, buf, datasz, PutAll(datasz, RecordChunks(format, RecordWord(datasz, format, cs), cs)))
    ensures buf[..datasz] == was[..datasz]
  {
    hide LenAll, PutAll, Wrote, ToBytes, RecordWord, RecordChunks;
    var zero, word := ToBytes(SIZEOF_INT, 0), RecordWord(datasz, format, cs);
    var rest := PutAll(HeadLen(datasz, format), cs);
    HeadOf(datasz, format, zero);
    HeadOf(datasz, format, word);
    RecordIs(datasz, format, zero, cs);
    RecordIs(datasz, format, word, cs);
    WroteOver(was, mid, buf, datasz, format + [0], zero, word, rest);
    WroteKeeps(was, buf, datasz, PutAll(datasz, RecordChunks(format, word, cs)));
  }

  lemma {:induction false} WordIs(datasz: nat, format: seq<byte>, cs: seq<Chunk>)
    requires datasz + |format| + 1 + SIZEOF_INT <= POSIX_LOG_ENTRY_MAXLEN
    ensures RecordWord(datasz, format, cs)
         == ToBytes(SIZEOF_INT, LenAll(HeadLen(datasz, format), cs) - HeadLen(datasz, format))
  {
    hide ToBytes, LenAll;
  }

  /** Where it is not, it stays zero, as far as it was written at all. */
  lemma {:induction false} WordLeft(datasz: nat, format: seq<byte>, cs: seq<Chunk>)
    requires datasz + |format| + 1 + SIZEOF_INT > POSIX_LOG_ENTRY_MAXLEN
    ensures RecordWord(datasz, format, cs) == ToBytes(SIZEOF_INT, 0)
  {
    hide ToBytes;
  }

  /** What is then in the buffer, and how long the record is. */
  lemma {:induction false} RecordPacked(was: seq<byte>, buf: seq<byte>, datasz: nat, format: seq<byte>, args: seq<Arg>,
      convs: seq<Conversion>)
    requires |was| == POSIX_LOG_ENTRY_MAXLEN && datasz <= POSIX_LOG_ENTRY_MAXLEN && |args| == |convs|
    requires InBounds(HeadLen(datasz, format), ArgsChunks(args, convs))
    requires var cs := ArgsChunks(args, convs);
      Wrote(was, buf, datasz, PutAll(datasz, RecordChunks(format, RecordWord(datasz, format, cs), cs)))
    ensures var len := LenAll(HeadLen(datasz, format), ArgsChunks(args, convs));
      var word := RecordWord(datasz, format, ArgsChunks(args, convs));
      if datasz + |Packed(format, args)| <= POSIX_LOG_ENTRY_MAXLEN then
        len == datasz + |Packed(format, args)| && Wrote(was, buf, datasz, Packed(format, args))
      else
        && len > POSIX_LOG_ENTRY_MAXLEN && |buf| == |was|
        && CutShort(buf[datasz..], format + [0] + word + PackedArgs(args))
  {
    hide LenAll, PutAll, InBounds, PackedArgs, ToBytes, ArgsChunks, CutShort, RecordWord, RecordChunks, HeadLen;
    var cs := ArgsChunks(args, convs);
    var word := RecordWord(datasz, format, cs);
    RecordIs(datasz, format, word, cs);
    if datasz + |Packed(format, args)| <= POSIX_LOG_ENTRY_MAXLEN {
      RecordFits(datasz, format, args, convs);
    } else {
      RecordIsCutShort(datasz, format, args, convs, word);
      assert buf[datasz..] == PutAll(datasz, RecordChunks(format, word, cs));
    }
  }

  lemma {:induction false} WroteKeeps(was: seq<byte>, buf: seq<byte>, d: nat, b: seq<byte>)
    requires Wrote(was, buf, d, b)
    ensures d <= |buf| && buf[..d] == was[..d]
  {
  }

  // ---------------------------------------------------------------------------------------------------------
  // Collecting

  class RecBuf {
    const data: seq<byte>
    var next: nat

    constructor (data: seq<byte>)
      ensures this.data == data && next == 0
    {
      this.data, next := data, 0;
    }

    method CollectBytes(nbytes: nat) returns (ok: bool, dest: seq<byte>)
      requires next <= |data|
      modifies this
      ensures Collected(ok, next, dest) == PrintfRecord.CollectBytes(data, old(next), nbytes)
    {
      if |data| - next < nbytes {
        next := |data|;
        return false, [];
      }
      dest := data[next..next + nbytes];
      next := next + nbytes;
      ok := true;
    }

    method CollectString() returns (ok: bool, s: seq<byte>)
      requires next <= |data|
      modifies this
      ensures Collected(ok, next, s) == PrintfRecord.CollectString(data, old(next))
    {
      var start := next;
      while next < |data| && data[next] != 0
        invariant start <= next <= |data| && FindNull(data, start) == FindNull(data, next)
      {
        next := next + 1;
      }
      if next < |data| {
        s := data[start..next];
        next := next + 1;
        ok := true;
      } else {
        ok, s := false, [];
      }
    }

    method CollectWstring() returns (ok: bool, ws: seq<nat>)
      requires next <= |data|
      modifies this
      ensures Collected(ok, next, ws) == PrintfRecord.CollectWstring(data, old(next))
    {
      ws := [];
      ghost var start := next;
      while true
        invariant start <= next <= |data|
        invariant PrintfRecord.CollectWstring(data, start) == Prepend(ws, PrintfRecord.CollectWstring(data, next))
        decreases |data| - next
      {
        var more, b := CollectBytes(SIZEOF_WCHAR);
        if !more {
          return false, [];
        }
        var wc := FromBytes(b);
        if wc == 0 {
          return true, ws;
        }
        PrependTwice(ws, [wc], PrintfRecord.CollectWstring(data, next));
        ws := ws + [wc];
      }
    }

    /** Collects one value; none when the record ends or the type is none. */
    method ReadElement(base: BaseType) returns (status: Outcome, e: Option<Element>)
      requires next <= |data|
      modifies this
      ensures ElementRead(status, next, e) == PrintfRecord.ReadElement(data, old(next), base)
    {
      status, e := Success, None;
      match base
      case NoType => status := Badmsg;
      case ScalarType(size) =>
        var ok, b := CollectBytes(size);
        if ok {
          e := Some(Scalar(b));
        }
      case StringType =>
        var ok, s := CollectString();
        if ok {
          e := Some(Str(s));
        }
      case WstringType =>
        var ok, ws := CollectWstring();
        if ok {
          e := Some(Wstr(ws));
        }
    }

    /** Hands the values of one conversion to the formatter, an array's with the delimiter between them. */
    method FormatConversion(conv: Conversion) returns (status: Outcome, out: seq<Piece>, early: bool)
      requires next <= |data|
      modifies this
      ensures Formatted(status, next, out, early) == PrintfRecord.FormatConversion(data, old(next), conv)
    {
      hide PrintfRecord.ReadElement, PrintfRecord.CollectString, FromBytes, FormatElements, After;
      status, out, early := Success, [], false;
      var dim: nat, delim := 1, [];
      if conv.isArray {
        var ok, word := CollectBytes(SIZEOF_INT);
        if !ok {
          return Success, [], true;
        }
        dim := Dimension(FromBytes(word));
        ok, delim := CollectString();
        if !ok {
          return Success, [], true;
        }
      }
      ghost var whole := FormatElements(data, next, conv.base, delim, 0, dim);
      assert whole == PrintfRecord.FormatConversion(data, old(next), conv);
      AfterNothing(whole);
      var i := 0;
      while i < dim
        invariant i <= dim && next <= |data| && status == Success && !early
        invariant whole == After(out, FormatElements(data, next, conv.base, delim, i, dim))
      {
        AfterElement(out, data, next, conv.base, delim, i, dim);
        if i > 0 {
          out := out + [Text(delim)];
        }
        var e;
        status, e := ReadElement(conv.base);
        if e.None? {
          early := status.Success?;
          return;
        }
        out := out + [Value(e.value)];
        i := i + 1;
      }
      AfterLast(out, data, next, conv.base, delim, dim);
    }
  }

  function Prepend(ws: seq<nat>, c: Collected<nat>): Collected<nat> {
    Collected(c.ok, c.next, if c.ok then ws + c.value else [])
  }

  lemma {:induction false} PrependTwice(a: seq<nat>, b: seq<nat>, c: Collected<nat>)
    ensures Prepend(a, Prepend(b, c)) == Prepend(a + b, c)
  {
    assert a + (b + c.value) == (a + b) + c.value;
  }

  function After(out: seq<Piece>, f: Formatted): Formatted {
    f.(out := out + f.out)
  }

  lemma {:induction false} AfterNothing(f: Formatted)
    ensures After([], f) == f
  {
  }

  /** One more element is read, or the record ends or is bad there. */
  lemma {:induction false} AfterElement(out: seq<Piece>, data: seq<byte>, next: nat, base: BaseType, delim: seq<byte>,
      i: nat, dim: nat)
    requires next <= |data| && i < dim
    ensures var e := PrintfRecord.ReadElement(data, next, base);
      var so := if i > 0 then out + [Text(delim)] else out;
      After(out, FormatElements(data, next, base, delim, i, dim)) ==
      if e.elem.None? then Formatted(e.status, e.next, so, e.status.Success?)
      else After(so + [Value(e.elem.value)], FormatElements(data, e.next, base, delim, i + 1, dim))
  {
    hide PrintfRecord.ReadElement;
    var e := PrintfRecord.ReadElement(data, next, base);
    if e.elem.Some? {
      var rest := FormatElements(data, e.next, base, delim, i + 1, dim).out;
      assert out + (Before(i, delim) + [Value(e.elem.value)] + rest)
          == (out + Before(i, delim)) + [Value(e.elem.value)] + rest;
    }
    assert i == 0 ==> out + Before(i, delim) == out;
  }

  lemma {:induction false} AfterLast(out: seq<Piece>, data: seq<byte>, next: nat, base: BaseType, delim: seq<byte>,
      dim: nat)
    requires next <= |data|
    ensures After(out, FormatElements(data, next, base, delim, dim, dim)) == Formatted(Success, next, out, false)
  {
  }

  /** Hands the whole record to the formatter. early says that some conversion found no data, or not all of its own. */
  method FormatPrintfRec(data: seq<byte>, parse: Parser) returns (status: Outcome, out: seq<Piece>, early: bool,
      next: nat)
    ensures Formatted(status, next, out, early) == FormatRecord(data, parse)
  {
    hide PrintfRecord.CollectString, PrintfRecord.FormatConversion, FormatSegments;
    out, early, next := [], false, 0;
    if data == [] {
      return Inval, [], false, 0;
    }
    var recbuf := new RecBuf(data);
    var ok, format := recbuf.CollectString();
    if !ok {
      return Badmsg, [], false, recbuf.next;
    }
    var parsed := parse(format);
    if parsed.None? {
      return Badmsg, [], false, recbuf.next;
    }
    recbuf.next := recbuf.next + SIZEOF_INT;
    var segs := parsed.value;
    ghost var whole := FormatSegments(data, recbuf.next, segs);
    OntoNothing(whole);
    var p := 0;
    while p < |segs|
      invariant p <= |segs| && whole == Onto(out, early, FormatSegments(data, recbuf.next, segs[p..]))
      decreases |segs| - p
    {
      OntoSegment(out, early, data, recbuf.next, segs, p);
      if segs[p].StringSegment? {
        out := out + [Text(segs[p].text)];
      } else if recbuf.next >= |data| {
        early := true;
      } else {
        var more, cut;
        status, more, cut := recbuf.FormatConversion(segs[p].conv);
        out, early := out + more, early || cut;
        if status != Success {
          return status, out, early, recbuf.next;
        }
      }
      p := p + 1;
    }
    OntoLast(out, early, data, recbuf.next, segs);
    return Success, out, early, recbuf.next;
  }

  function Onto(out: seq<Piece>, early: bool, f: Formatted): Formatted {
    f.(out := out + f.out, early := early || f.early)
  }

  lemma {:induction false} OntoNothing(f: Formatted)
    ensures Onto([], false, f) == f
  {
  }

  lemma {:induction false} OntoLast(out: seq<Piece>, early: bool, data: seq<byte>, next: nat, segs: seq<Segment>)
    ensures Onto(out, early, FormatSegments(data, next, segs[|segs|..])) == Formatted(Success, next, out, early)
  {
  }

  lemma {:induction false} OntoSegment(out: seq<Piece>, early: bool, data: seq<byte>, next: nat, segs: seq<Segment>,
      p: nat)
    requires p < |segs|
    ensures var all := Onto(out, early, FormatSegments(data, next, segs[p..]));
      if segs[p].StringSegment? then
        all == Onto(out + [Text(segs[p].text)], early, FormatSegments(data, next, segs[p + 1..]))
      else if next >= |data| then all == Onto(out, true, FormatSegments(data, next, segs[p + 1..]))
      else
        var f := PrintfRecord.FormatConversion(data, next, segs[p].conv);
        if f.status != Success then all == Onto(out, early, f)
        else all == Onto(out + f.out, early || f.early, FormatSegments(data, f.next, segs[p + 1..]))
  {
    hide PrintfRecord.FormatConversion;
    assert segs[p..][0] == segs[p] && segs[p..][1..] == segs[p + 1..];
    match segs[p]
    case StringSegment(text) =>
      var rest := FormatSegments(data, next, segs[p + 1..]).out;
      assert out + ([Text(text)] + rest) == (out + [Text(text)]) + rest;
    case ConversionSegment(conv) =>
      if next < |data| {
        var f := PrintfRecord.FormatConversion(data, next, conv);
        var rest := FormatSegments(data, f.next, segs[p + 1..]).out;
        assert out + (f.out + rest) == (out + f.out) + rest;
      }
  }
}
