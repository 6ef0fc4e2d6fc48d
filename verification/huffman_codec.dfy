/**
  The pure parts of `encode` and `decode` in huffman_coding.py: the output file
  name, the concatenated bit string, the padding count, the packing of bits
  into bytes, the expansion of bytes back into bits, and the greedy decoder.

  Packing as written (`PackAsWritten`) loses the last byte when the bit string
  is a non-empty multiple of 8 bits long, and `Encode` packs that way; `Pack`
  is the corrected packing, used by `EncodeCorrected`. Both agree on every
  other length.
 */
module HuffmanCodec {
  import opened BitStrings
  import opened Wrappers
  import opened HuffmanTree
  import opened HuffmanBuild

  // ---------------------------------------------------------------------------
  // Output file name
  // ---------------------------------------------------------------------------

  /** The position of the last '.' of `name`, if there is one. */
  function LastDot(name: string): (r: Option<nat>)
    ensures r.None? <==> '.' !in name
    ensures r.Some? ==> r.value < |name| && name[r.value] == '.' && '.' !in name[r.value + 1..]
  {
    if |name| == 0 then None
    else if name[|name| - 1] == '.' then Some(|name| - 1)
    else
      assert name == name[..|name| - 1] + [name[|name| - 1]];
      LastDot(name[..|name| - 1])
  }

  /**
    The output file name of `encode`: the given one when it is not empty;
    otherwise the input name with everything from its last '.' on replaced by
    ".bin", or with ".bin" appended when it has no '.'.
   */
  function OutputName(inName: string, outName: string): (r: string)
    ensures outName != "" ==> r == outName
    ensures outName == "" ==> |r| >= 4 && r[|r| - 4..] == ".bin"
  {
    if outName != "" then outName
    else match LastDot(inName)
      case Some(i) => inName[..i] + ".bin"
      case None => inName + ".bin"
  }

  /** A name `stem.ext` whose extension has no '.' becomes `stem.bin`. */
  lemma OutputNameReplacesExtension(stem: string, ext: string)
    requires '.' !in ext
    ensures OutputName(stem + "." + ext, "") == stem + ".bin"
  {
    var name := stem + "." + ext;
    var d := LastDot(name);
    assert name[|stem|] == '.';
    assert name[..|stem|] == stem;
  }

  /** A name without '.' gets ".bin" appended. */
  lemma OutputNameAppendsExtension(name: string)
    requires '.' !in name
    ensures OutputName(name, "") == name + ".bin"
  {
  }

  // ---------------------------------------------------------------------------
  // Bit string and padding
  // ---------------------------------------------------------------------------

  /** `binary_string`: the codes of the text's characters, in order. */
  function Concat(text: string, table: map<char, string>): (bits: string)
    requires forall c :: c in text ==> c in table
    ensures NonEmptyBitCodes(table) ==> BitString(bits)
    ensures NonEmptyBitCodes(table) ==> |text| <= |bits|
  {
    if |text| == 0 then ""
    else table[text[0]] + Concat(text[1..], table)
  }

  /** The padding count of `encode`: the zero bits that fill the last byte, a full 8 on an aligned length. */
  function Padding(len: nat): (p: int)
    ensures 1 <= p <= 8
    ensures (len + p) % 8 == 0
  {
    8 - len % 8
  }

  // ---------------------------------------------------------------------------
  // Packing bits into bytes
  // ---------------------------------------------------------------------------

  /** `int(bits[i:i+8], 2)`, with Python's slice clipped at the end of `bits`. */
  function ChunkValue(bits: string, i: nat): Byte
    requires BitString(bits) && i < |bits|
  {
    var chunk := bits[i..if i + 8 <= |bits| then i + 8 else |bits|];
    BinValueBound(chunk);
    Pow2Monotone(|chunk|, 8);
    Pow2Eight();
    BinValue(chunk)
  }

  /** `[int(bits[i:i+8], 2) for i in range(start, stop, 8)]`. */
  function RangeChunks(bits: string, start: nat, stop: int): seq<Byte>
    requires BitString(bits) && stop <= |bits|
    decreases stop - start
  {
    if start >= stop then [] else [ChunkValue(bits, start)] + RangeChunks(bits, start + 8, stop)
  }

  /**
    The last byte: the `len % 8` bits after the last full chunk, followed by
    `padding` zeros, read with `int(_, 2)`.
   */
  function TailByte(bits: string): Byte
    requires BitString(bits)
  {
    var tail := bits[|bits| - |bits| % 8..] + Zeros(Padding(|bits|));
    assert BitString(tail);
    BinValueBound(tail);
    Pow2Eight();
    BinValue(tail)
  }

  /**
    The packing as written: full chunks for `range(0, len - 8, 8)`, then the
    tail byte. On a length that is a non-empty multiple of 8 the range stops one
    chunk early, and the tail byte is all padding.
   */
  function PackAsWritten(bits: string): (r: seq<Byte>)
    requires BitString(bits)
    ensures |bits| % 8 != 0 ==> |r| == (|bits| + 7) / 8
    ensures |bits| >= 8 && |bits| % 8 == 0 ==> |r| == |bits| / 8
  {
    ChunkCount(bits, 0, |bits| - 8);
    RangeChunks(bits, 0, |bits| - 8) + [TailByte(bits)]
  }

  /**
    The corrected packing: full chunks for `range(0, len - len % 8, 8)`, then
    the tail byte. It yields one byte per 8 bits of the padded string.
   */
  function Pack(bits: string): (r: seq<Byte>)
    requires BitString(bits)
    ensures |r| == (|bits| + Padding(|bits|)) / 8
  {
    ChunkCount(bits, 0, |bits| - |bits| % 8);
    RangeChunks(bits, 0, |bits| - |bits| % 8) + [TailByte(bits)]
  }

  /** `range(start, stop, 8)` has ceil((stop - start) / 8) elements. */
  lemma {:induction false} ChunkCount(bits: string, start: nat, stop: int)
    requires BitString(bits) && stop <= |bits|
    ensures start >= stop ==> |RangeChunks(bits, start, stop)| == 0
    ensures start < stop ==> |RangeChunks(bits, start, stop)| == (stop - start + 7) / 8
    decreases stop - start
  {
    if start < stop {
      ChunkCount(bits, start + 8, stop);
    }
  }

  // ---------------------------------------------------------------------------
  // Expanding bytes into bits
  // ---------------------------------------------------------------------------

  /** `from_bytes_string`: the 8-bit expansions of all bytes, in order. */
  function ExpandAll(bytes: seq<Byte>): (s: string)
    ensures |s| == 8 * |bytes|
    ensures BitString(s)
  {
    if |bytes| == 0 then "" else ByteBits(bytes[0]) + ExpandAll(bytes[1..])
  }

  lemma {:induction false} ExpandAllConcat(a: seq<Byte>, b: seq<Byte>)
    ensures ExpandAll(a + b) == ExpandAll(a) + ExpandAll(b)
    decreases |a|
  {
    if |a| == 0 {
      assert a + b == b;
    } else {
      var head, tail := ByteBits(a[0]), a[1..];
      assert (a + b)[0] == a[0] && (a + b)[1..] == tail + b;
      ExpandAllConcat(tail, b);
      AppendAssoc(head, ExpandAll(tail), ExpandAll(b));
    }
  }

  /** Concatenation regroups freely. */
  lemma AppendAssoc<T>(h: seq<T>, x: seq<T>, y: seq<T>)
    ensures h + (x + y) == (h + x) + y
  {
  }

  /** A slice splits at any point inside it. */
  lemma SplitRange<T>(s: seq<T>, a: nat, m: nat, b: nat)
    requires a <= m <= b <= |s|
    ensures s[a..b] == s[a..m] + s[m..b]
  {
  }

  /** A slice from the start is a prefix. */
  lemma TakeFromZero<T>(s: seq<T>, n: nat)
    requires n <= |s|
    ensures s[0..n] == s[..n]
  {
  }

  /** The first `|a|` elements of `a + b` are `a`. */
  lemma PrefixOfAppend<T>(a: seq<T>, b: seq<T>)
    ensures (a + b)[..|a|] == a
  {
  }

  /** Reading one more element of `w` past position `k`, ahead of `rest`. */
  lemma SliceStep<T>(w: seq<T>, k: nat, rest: seq<T>)
    requires k < |w|
    ensures (w[k..] + rest)[0] == w[k]
    ensures (w[k..] + rest)[1..] == w[k + 1..] + rest
    ensures w[..k] + [w[k]] == w[..k + 1]
    ensures k + 1 == |w| ==> w[k + 1..] + rest == rest && w[..k + 1] == w
  {
  }

  /** Full chunks expand back into the bits they were read from. */
  lemma {:induction false} ExpandRangeChunks(bits: string, start: nat, stop: int)
    requires BitString(bits) && stop <= |bits|
    requires start <= stop && (stop - start) % 8 == 0
    ensures ExpandAll(RangeChunks(bits, start, stop)) == bits[start..stop]
    decreases stop - start
  {
    if start < stop {
      var chunk := bits[start..start + 8];
      ByteBitsOfBinValue(chunk);
      ExpandRangeChunks(bits, start + 8, stop);
      SplitRange(bits, start, start + 8, stop);
    }
  }

  /** The tail byte expands into the tail bits followed by the padding zeros. */
  lemma ExpandTailByte(bits: string)
    requires BitString(bits)
    ensures ExpandAll([TailByte(bits)]) == bits[|bits| - |bits| % 8..] + Zeros(Padding(|bits|))
  {
    var tail := bits[|bits| - |bits| % 8..] + Zeros(Padding(|bits|));
    assert BitString(tail);
    ByteBitsOfBinValue(tail);
    assert [TailByte(bits)][1..] == [];
  }

  /** Expanding the corrected packing gives the bit string followed by the padding zeros. */
  lemma ExpandPack(bits: string)
    requires BitString(bits)
    ensures ExpandAll(Pack(bits)) == bits + Zeros(Padding(|bits|))
  {
    var cut := |bits| - |bits| % 8;
    var front, tail := RangeChunks(bits, 0, cut), [TailByte(bits)];
    assert Pack(bits) == front + tail;
    ExpandAllConcat(front, tail);
    assert cut % 8 == 0;
    ExpandRangeChunks(bits, 0, cut);
    ExpandTailByte(bits);
    SplitRange(bits, 0, cut, |bits|);
    assert bits[0..|bits|] == bits;
  }

  // ---------------------------------------------------------------------------
  // Decoding
  // ---------------------------------------------------------------------------

  /**
    `s[:-padding]` under Python's slice rules: a negative bound counts from the
    end and is clipped at 0; `s[:-0]` is `s[:0]`, the empty string.
   */
  function DropLast(s: string, padding: int): (r: string)
    ensures IsPrefix(r, s)
    ensures 0 < padding <= |s| ==> |r| == |s| - padding
    ensures padding > |s| || padding == 0 ==> r == ""
  {
    var bound := -padding;
    var end := if bound < 0 then (if |s| + bound < 0 then 0 else |s| + bound)
               else (if bound > |s| then |s| else bound);
    s[..end]
  }

  /**
    The reverse table `decode` builds by swapping each table entry: it maps
    every code to a character that has it. When two characters share a code
    the dictionary keeps the later one; which one that is depends on the
    table's insertion order and is left open here.
   */
  ghost function ReverseTable(table: map<char, string>): (rev: map<string, char>)
    ensures rev.Keys == table.Values
    ensures forall w :: w in rev ==> rev[w] in table && table[rev[w]] == w
  {
    map w | w in table.Values :: var c :| c in table && table[c] == w; c
  }

  /**
    The greedy decoding loop: each bit is appended to `path`; as soon as `path`
    is a code, its character is emitted and `path` starts over. A path still
    pending when the bits run out is dropped without an error. Each emitted
    character consumes at least one bit.
   */
  function Greedy(rev: map<string, char>, bits: string, path: string): (r: string)
    ensures |r| <= |bits|
    decreases |bits|
  {
    if |bits| == 0 then ""
    else
      var p := path + [bits[0]];
      if p in rev then [rev[p]] + Greedy(rev, bits[1..], "") else Greedy(rev, bits[1..], p)
  }

  /**
    `decode(table, padding, file)` on the bytes of the file: the bits of the
    bytes, less the last `padding`, read by the greedy loop. What it returns
    is pinned by `RoundTrip` and `DecodeAsWritten`.
   */
  ghost function Decode(table: map<char, string>, padding: int, bytes: seq<Byte>): (r: string)
    ensures |r| <= 8 * |bytes|
    ensures 0 < padding <= 8 * |bytes| ==> |r| <= 8 * |bytes| - padding
  {
    Greedy(ReverseTable(table), DropLast(ExpandAll(bytes), padding), "")
  }

  /** Reading one code: its proper prefixes match nothing, the whole code matches its character. */
  lemma {:induction false} GreedyCode(table: map<char, string>, c: char, k: nat, rest: string)
    requires PrefixFree(table) && NonEmptyBitCodes(table)
    requires c in table && k < |table[c]|
    ensures Greedy(ReverseTable(table), table[c][k..] + rest, table[c][..k])
         == [c] + Greedy(ReverseTable(table), rest, "")
    decreases |table[c]| - k
  {
    var rev := ReverseTable(table);
    var w := table[c];
    var bits := w[k..] + rest;
    SliceStep(w, k, rest);
    var p := w[..k] + [bits[0]];
    if k + 1 == |w| {
      assert p == w;
      assert rev[w] == c by {
        var d := rev[w];
        if d != c {
          assert IsPrefix(table[d], table[c]);
        }
      }
    } else {
      if p in rev {
        var d := rev[p];
        assert IsPrefix(table[d], table[c]);
      }
      GreedyCode(table, c, k + 1, rest);
    }
  }

  /** The greedy reading of `code + rest` from a fresh path. */
  function ReadAfter(rev: map<string, char>, code: string, rest: string): string {
    Greedy(rev, code + rest, "")
  }

  /** Reading from a fresh path, each code of the table yields its character and nothing more. */
  ghost predicate ReadsCodes(rev: map<string, char>, table: map<char, string>) {
    forall c, rest {:trigger ReadAfter(rev, table[c], rest)} ::
      c in table ==> ReadAfter(rev, table[c], rest) == [c] + Greedy(rev, rest, "")
  }

  /** The reverse of a prefix-free table of non-empty codes reads every code. */
  lemma CodesRead(table: map<char, string>)
    requires PrefixFree(table) && NonEmptyBitCodes(table)
    ensures ReadsCodes(ReverseTable(table), table)
  {
    forall c, rest | c in table
      ensures ReadAfter(ReverseTable(table), table[c], rest) == [c] + Greedy(ReverseTable(table), rest, "")
    {
      GreedyCode(table, c, 0, rest);
      assert table[c][0..] == table[c] && table[c][..0] == "";
    }
  }

  /** The codes of a text decode to that text, whatever bits follow them. */
  lemma {:induction false} GreedyConcat(rev: map<string, char>, table: map<char, string>, text: string, rest: string)
    requires ReadsCodes(rev, table)
    requires forall c :: c in text ==> c in table
    ensures Greedy(rev, Concat(text, table) + rest, "") == text + Greedy(rev, rest, "")
  {
    if |text| == 0 {
      assert Concat(text, table) + rest == rest;
    } else {
      var c, after := text[0], Concat(text[1..], table) + rest;
      GreedyConcat(rev, table, text[1..], rest);
      ConcatFront(table, text, rest);
      ReadOneCode(rev, table, c, after);
      assert text == [c] + text[1..];
    }
  }

  lemma ReadOneCode(rev: map<string, char>, table: map<char, string>, c: char, rest: string)
    requires ReadsCodes(rev, table) && c in table
    ensures Greedy(rev, table[c] + rest, "") == [c] + Greedy(rev, rest, "")
  {
    assert ReadAfter(rev, table[c], rest) == [c] + Greedy(rev, rest, "");
  }

  /** The bits of a non-empty text start with the whole code of its first character. */
  lemma ConcatFront(table: map<char, string>, text: string, rest: string)
    requires forall c :: c in text ==> c in table
    requires |text| > 0
    ensures Concat(text, table) + rest == table[text[0]] + (Concat(text[1..], table) + rest)
  {
  }

  /** A path that never becomes a code emits nothing. */
  lemma {:induction false} GreedyNoMatch(rev: map<string, char>, bits: string, path: string)
    requires forall k :: 0 < k <= |bits| ==> path + bits[..k] !in rev
    ensures Greedy(rev, bits, path) == ""
    decreases |bits|
  {
    if |bits| > 0 {
      var p := path + [bits[0]];
      assert p == path + bits[..1];
      forall k | 0 < k <= |bits[1..]|
        ensures p + bits[1..][..k] !in rev
      {
        assert p + bits[1..][..k] == path + bits[..k + 1];
      }
      GreedyNoMatch(rev, bits[1..], p);
    }
  }

  /**
    Decoding never signals an error: trailing bits that are a proper prefix of
    some code are silently dropped.
   */
  lemma DecodeDropsPartialCode(table: map<char, string>, text: string, c: char, k: nat)
    requires PrefixFree(table) && NonEmptyBitCodes(table)
    requires forall x :: x in text ==> x in table
    requires c in table && k < |table[c]|
    ensures Greedy(ReverseTable(table), Concat(text, table) + table[c][..k], "") == text
  {
    var rev := ReverseTable(table);
    var junk := table[c][..k];
    CodesRead(table);
    GreedyConcat(rev, table, text, junk);
    forall j | 0 < j <= |junk|
      ensures "" + junk[..j] !in rev
    {
      var p := junk[..j];
      assert "" + p == p;
      if p in rev {
        var d := rev[p];
        assert table[d] == p;
        assert IsPrefix(p, table[c]);
      }
    }
    GreedyNoMatch(rev, junk, "");
    assert text + "" == text;
  }

  /**
    Round trip of the corrected codec: for a prefix-free table of non-empty bit
    codes that covers the text, decoding the packed codes with the padding
    count returns the text.
   */
  lemma RoundTrip(table: map<char, string>, text: string)
    requires PrefixFree(table) && NonEmptyBitCodes(table)
    requires forall c :: c in text ==> c in table
    ensures Decode(table, Padding(|Concat(text, table)|), Pack(Concat(text, table))) == text
  {
    var bits := Concat(text, table);
    var pad := Padding(|bits|);
    ExpandPack(bits);
    assert DropLast(bits + Zeros(pad), pad) == bits;
    CodesRead(table);
    GreedyConcat(ReverseTable(table), table, text, "");
    assert bits + "" == bits;
    assert text + "" == text;
  }

  // ---------------------------------------------------------------------------
  // The packing as written
  // ---------------------------------------------------------------------------

  /** Ranges whose stops reach the same multiples of 8 read the same chunks. */
  lemma {:induction false} RangeChunksSameStops(bits: string, start: nat, s1: int, s2: int)
    requires BitString(bits) && s1 <= |bits| && s2 <= |bits|
    requires start % 8 == 0 && s2 % 8 == 0 && s2 - 8 < s1 <= s2
    ensures RangeChunks(bits, start, s1) == RangeChunks(bits, start, s2)
    decreases s2 - start
  {
    if start < s2 {
      AlignedGap(start, s2);
      assert start < s1;
      RangeChunksSameStops(bits, start + 8, s1, s2);
    }
  }

  /** Two distinct multiples of 8 are at least 8 apart. */
  lemma AlignedGap(a: nat, b: int)
    requires a % 8 == 0 && b % 8 == 0 && a < b
    ensures a + 8 <= b && (a + 8) % 8 == 0
  {
    assert a == 8 * (a / 8) && b == 8 * (b / 8);
  }

  /** When the bit string is empty or not a multiple of 8 long, the packing as written is the corrected one. */
  lemma PackAsWrittenAgrees(bits: string)
    requires BitString(bits)
    requires |bits| % 8 != 0 || |bits| == 0
    ensures PackAsWritten(bits) == Pack(bits)
  {
    var len := |bits|;
    if len % 8 != 0 {
      RangeChunksSameStops(bits, 0, len - 8, len - len % 8);
    }
  }

  /** Round trip of the codec as written, on every length it handles correctly. */
  lemma RoundTripAsWritten(table: map<char, string>, text: string)
    requires PrefixFree(table) && NonEmptyBitCodes(table)
    requires forall c :: c in text ==> c in table
    requires |Concat(text, table)| % 8 != 0 || |Concat(text, table)| == 0
    ensures |Concat(text, table)| % 8 != 0 ==>
      8 * |PackAsWritten(Concat(text, table))| == |Concat(text, table)| + Padding(|Concat(text, table)|)
    ensures Decode(table, Padding(|Concat(text, table)|), PackAsWritten(Concat(text, table))) == text
  {
    PackAsWrittenAgrees(Concat(text, table));
    RoundTrip(table, text);
  }

  /**
    On a bit string that is a non-empty multiple of 8 long, the packing as
    written drops the last 8 bits: the last byte is pure padding, and decoding
    reads only the bits before the last full byte.
   */
  lemma PackAsWrittenLosesLastByte(table: map<char, string>, bits: string)
    requires BitString(bits)
    requires |bits| >= 8 && |bits| % 8 == 0
    ensures Padding(|bits|) == 8 && 8 * |PackAsWritten(bits)| == |bits|
    ensures PackAsWritten(bits) == RangeChunks(bits, 0, |bits| - 8) + [0]
    ensures PackAsWritten(bits)[|PackAsWritten(bits)| - 1] == 0
    ensures Decode(table, Padding(|bits|), PackAsWritten(bits))
         == Greedy(ReverseTable(table), bits[..|bits| - 8], "")
  {
    AlignedTailByte(bits);
    ExpandPackAsWritten(bits);
    assert Padding(|bits|) == 8;
  }

  /** Expanding the aligned packing as written and dropping 8 bits leaves all but the last 8 bits. */
  lemma ExpandPackAsWritten(bits: string)
    requires BitString(bits)
    requires |bits| >= 8 && |bits| % 8 == 0
    ensures DropLast(ExpandAll(PackAsWritten(bits)), 8) == bits[..|bits| - 8]
  {
    var len := |bits|;
    var front := RangeChunks(bits, 0, len - 8);
    AlignedTailByte(bits);
    ExpandAllConcat(front, [TailByte(bits)]);
    ExpandAlignedFront(bits);
    DropLastOfAppend(bits[..len - 8], ExpandAll([TailByte(bits)]));
  }

  /** The full chunks before the last 8 bits of an aligned bit string expand back into those bits. */
  lemma ExpandAlignedFront(bits: string)
    requires BitString(bits)
    requires |bits| >= 8 && |bits| % 8 == 0
    ensures ExpandAll(RangeChunks(bits, 0, |bits| - 8)) == bits[..|bits| - 8]
  {
    AlignedDrop(|bits|);
    ExpandRangeChunks(bits, 0, |bits| - 8);
    TakeFromZero(bits, |bits| - 8);
  }

  /** Dropping the last 8 characters of `a + b` with `b` 8 long leaves `a`. */
  lemma DropLastOfAppend(a: string, b: string)
    requires |b| == 8
    ensures DropLast(a + b, 8) == a
  {
    PrefixOfAppend(a, b);
  }

  /** Dropping one byte's worth of bits from an aligned length leaves it aligned. */
  lemma AlignedDrop(n: int)
    requires n % 8 == 0
    ensures (n - 8) % 8 == 0
  {
    assert n - 8 == 8 * (n / 8 - 1);
  }

  /** On an aligned length the tail byte holds no code bits, only the 8 padding zeros. */
  lemma AlignedTailByte(bits: string)
    requires BitString(bits)
    requires |bits| % 8 == 0
    ensures TailByte(bits) == 0
  {
    assert bits[|bits|..] + Zeros(8) == Zeros(8);
    BinValueZeros(8);
  }

  /**
    The codec as written on a non-empty text: decoding returns the text when
    the bit string is not a multiple of 8 long, and otherwise the decoding of
    all but its last 8 bits, the last byte being pure padding.
   */
  lemma DecodeAsWritten(table: map<char, string>, text: string)
    requires PrefixFree(table) && NonEmptyBitCodes(table)
    requires forall c :: c in text ==> c in table
    requires |text| > 0
    ensures |Concat(text, table)| >= |text|
    ensures var bits := Concat(text, table);
      var bytes := PackAsWritten(bits);
      |bits| % 8 != 0 ==>
        && 8 * |bytes| == |bits| + Padding(|bits|)
        && Decode(table, Padding(|bits|), bytes) == text
    ensures |Concat(text, table)| % 8 == 0 ==> AlignedLoss(table, Concat(text, table))
  {
    UnalignedDecode(table, text);
    AlignedDecode(table, Concat(text, table));
  }

  /** The unaligned case of `DecodeAsWritten`. */
  lemma UnalignedDecode(table: map<char, string>, text: string)
    requires PrefixFree(table) && NonEmptyBitCodes(table)
    requires forall c :: c in text ==> c in table
    ensures var bits := Concat(text, table);
      var bytes := PackAsWritten(bits);
      |bits| % 8 != 0 ==>
        && 8 * |bytes| == |bits| + Padding(|bits|)
        && Decode(table, Padding(|bits|), bytes) == text
  {
    if |Concat(text, table)| % 8 != 0 {
      RoundTripAsWritten(table, text);
    }
  }

  /**
    What decoding sees of a bit string that is a non-empty multiple of 8 long
    once it is packed as written: the padding count is a full 8, there is one
    byte per 8 bits, the last byte is 0, and decoding reads only the bits
    before the last 8.
   */
  ghost predicate AlignedLoss(table: map<char, string>, bits: string)
    requires BitString(bits)
  {
    var bytes := PackAsWritten(bits);
    && |bits| >= 8
    && Padding(|bits|) == 8
    && 8 * |bytes| == |bits|
    && bytes[|bytes| - 1] == 0
    && Decode(table, 8, bytes) == Greedy(ReverseTable(table), bits[..|bits| - 8], "")
  }

  /** The aligned case of `DecodeAsWritten`, for any non-empty bit string. */
  lemma AlignedDecode(table: map<char, string>, bits: string)
    requires BitString(bits) && |bits| > 0
    ensures |bits| % 8 == 0 ==> AlignedLoss(table, bits)
  {
    if |bits| % 8 == 0 {
      AlignedGap(0, |bits|);
      PackAsWrittenLosesLastByte(table, bits);
    }
  }

  /** The two-symbol code a = "0", b = "1" is prefix-free. */
  lemma TwoSymbolTable()
    ensures var table := map['a' := "0", 'b' := "1"];
      PrefixFree(table) && NonEmptyBitCodes(table)
  {
    var table := map['a' := "0", 'b' := "1"];
    forall a, b | a in table && b in table && a != b
      ensures !IsPrefix(table[a], table[b])
    {
      assert table[a][0] != table[b][0];
    }
  }

  /** "abababab" under the code a = "0", b = "1" is the 8-bit string "01010101". */
  lemma ExampleBits()
    ensures Concat("abababab", map['a' := "0", 'b' := "1"]) == "01010101"
  {
    var table := map['a' := "0", 'b' := "1"];
    var ab := "ab";
    assert Concat(ab, table) == "01";
    ConcatAppend(ab, ab, table);
    ConcatAppend(ab + ab, ab + ab, table);
    assert (ab + ab) + (ab + ab) == "abababab";
    assert ("01" + "01") + ("01" + "01") == "01010101";
  }

  /** The bits of two texts in a row are the bits of the first followed by those of the second. */
  lemma {:induction false} ConcatAppend(a: string, b: string, table: map<char, string>)
    requires forall c :: c in a + b ==> c in table
    ensures Concat(a + b, table) == Concat(a, table) + Concat(b, table)
  {
    if |a| == 0 {
      assert a + b == b;
    } else {
      var tail := a[1..];
      assert (a + b)[0] == a[0] && (a + b)[1..] == tail + b;
      ConcatAppend(tail, b, table);
      AppendAssoc(table[a[0]], Concat(tail, table), Concat(b, table));
    }
  }

  /**
    A concrete input that shows the loss: "abababab" under the code a = "0",
    b = "1" is the 8-bit string "01010101", and decoding the bytes as written
    yields the empty string, while the corrected packing gives the text back.
   */
  lemma AlignedLengthCounterexample()
    ensures var table := map['a' := "0", 'b' := "1"];
      var text := "abababab";
      && PrefixFree(table) && NonEmptyBitCodes(table)
      && Concat(text, table) == "01010101"
      && Padding(|Concat(text, table)|) == 8
      && Decode(table, 8, PackAsWritten(Concat(text, table))) == ""
      && Decode(table, 8, Pack(Concat(text, table))) == text
  {
    var table := map['a' := "0", 'b' := "1"];
    var text := "abababab";
    TwoSymbolTable();
    ExampleBits();
    var bits := Concat(text, table);
    PackAsWrittenLosesLastByte(table, bits);
    assert bits[..0] == "";
    RoundTrip(table, text);
  }

  // ---------------------------------------------------------------------------
  // encode
  // ---------------------------------------------------------------------------

  /** What `encode` produces: the output name, the table, the padding count and the file's bytes. */
  datatype Encoded = Encoded(outName: string, table: map<char, string>, padding: int, bytes: seq<Byte>)

  /**
    `encode(in_file_name, out_file_name)` on the text of the input file: the
    table is built from the text's own counts, the text's codes are
    concatenated and packed as the source packs them (a full byte for each
    8-bit chunk starting below `len - 8`, then the zero-padded tail as the
    last byte, `PackAsWritten`), and the padding count is returned rather
    than stored in the output. Texts with fewer than two
    distinct characters make the table construction fail. When the bit string
    is a multiple of 8 long, the last byte holds only padding and decoding
    loses the last 8 code bits.
   */
  method Encode(inName: string, outName: string, text: string) returns (r: Result<Encoded, HuffmanError>)
    ensures |Symbols(text)| == 0 ==> r == Failure(NeverReturns)
    ensures |Symbols(text)| == 1 ==> r == Failure(NoneHasNoData)
    ensures r.Success? <==> |Symbols(text)| >= 2
    ensures r.Success? ==>
      && r.value.outName == OutputName(inName, outName)
      && r.value.table.Keys == Symbols(text)
      && PrefixFree(r.value.table) && NonEmptyBitCodes(r.value.table)
      && 1 <= r.value.padding <= 8
    ensures r.Success? ==> exists root :: HuffmanTable(Count(text), root, r.value.table)
    ensures r.Success? ==>
      var e := r.value;
      var bits := Concat(text, e.table);
      && e.bytes == PackAsWritten(bits)
      && e.padding == Padding(|bits|)
      && |bits| >= |text| >= 2
      && (|bits| % 8 != 0 ==>
            && 8 * |e.bytes| == |bits| + e.padding
            && Decode(e.table, e.padding, e.bytes) == text)
      && (|bits| % 8 == 0 ==> AlignedLoss(e.table, bits))
  {
    var name := OutputName(inName, outName);
    var t := GetTable(text);
    match t {
      case Failure(err) =>
        r := Failure(err);
      case Success(table) =>
        var bits := Concat(text, table);
        var padding := Padding(|bits|);
        var bytes := PackAsWritten(bits);
        SymbolsAtMostLength(text);
        DecodeAsWritten(table, text);
        r := Success(Encoded(name, table, padding, bytes));
    }
  }

  /**
    The encoder with the corrected packing of `Pack`: one byte per 8 bits of
    the padded string, and decoding returns the text on every length.
   */
  method EncodeCorrected(inName: string, outName: string, text: string) returns (r: Result<Encoded, HuffmanError>)
    ensures |Symbols(text)| == 0 ==> r == Failure(NeverReturns)
    ensures |Symbols(text)| == 1 ==> r == Failure(NoneHasNoData)
    ensures r.Success? <==> |Symbols(text)| >= 2
    ensures r.Success? ==>
      var e := r.value;
      && e.outName == OutputName(inName, outName)
      && e.table.Keys == Symbols(text)
      && PrefixFree(e.table) && NonEmptyBitCodes(e.table)
      && 1 <= e.padding <= 8
      && 8 * |e.bytes| == |Concat(text, e.table)| + e.padding
      && Decode(e.table, e.padding, e.bytes) == text
    ensures r.Success? ==> exists root :: HuffmanTable(Count(text), root, r.value.table)
  {
    var name := OutputName(inName, outName);
    var t := GetTable(text);
    match t {
      case Failure(err) =>
        r := Failure(err);
      case Success(table) =>
        var bits := Concat(text, table);
        var padding := Padding(|bits|);
        var bytes := Pack(bits);
        RoundTrip(table, text);
        r := Success(Encoded(name, table, padding, bytes));
    }
  }
}
