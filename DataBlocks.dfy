// gabac::DataBlock (data_block.h, data_block.cpp) and gabac::BlockStepper
// (block_stepper.h): a byte vector viewed as a sequence of 1, 2, 4 or 8 byte
// words. Words are stored in host byte order; the model fixes a
// little-endian host.
module DataBlocks {
  import opened Bytes

  // ---------------------------------------------------------------------------
  // The word view of a byte vector

  /** The bytes a word of size `ws` holding `v` occupies; an unknown word size
      leaves the bytes that resize() zero-filled. */
  function WordBytes(v: int, ws: nat): (r: seq<Byte>)
    ensures |r| == ws
  {
    if Known(ws) then LEBytes(v % TWO_64, ws) else Zeros(ws)
  }

  lemma IndexInBounds(i: nat, n: nat, ws: nat)
    requires ws >= 1 && i < n / ws
    ensures i * ws + ws <= n
  {
    assert (n / ws) * ws + n % ws == n;
    assert (i + 1) * ws <= (n / ws) * ws by {
      assert (n / ws - (i + 1)) * ws >= 0;
    }
  }

  /** The value of one word held in `bs`: zero-extended little-endian bytes,
      or 0 for a word size get() does not handle. */
  function WordValue(bs: seq<Byte>, ws: nat): (v: U64)
    requires |bs| == ws
    ensures v < WordMod(ws)
  {
    if Known(ws) then (WordModIsPow256(ws); LE(bs)) else 0
  }

  /** Word `i` of `data`: the `ws` bytes at byte offset i*ws. */
  function WordAt(data: seq<Byte>, ws: nat, i: nat): (v: U64)
    requires ws >= 1 && i < |data| / ws
    ensures v < WordMod(ws)
  {
    IndexInBounds(i, |data|, ws);
    WordValue(data[i * ws .. i * ws + ws], ws)
  }

  /** The sequence of whole words in `data`; trailing bytes that do not fill
      a word are not part of it. */
  function WordsOf(data: seq<Byte>, ws: nat): (w: seq<U64>)
    requires ws >= 1
    decreases |data|
  {
    if |data| < ws then [] else [WordValue(data[..ws], ws)] + WordsOf(data[ws..], ws)
  }

  lemma {:induction false} WordsOfLength(data: seq<Byte>, ws: nat)
    requires ws >= 1
    ensures |WordsOf(data, ws)| == |data| / ws
    decreases |data|
  {
    if |data| < ws {
      DivModUnique(|data|, ws, 0, |data|);
    } else {
      WordsOfLength(data[ws..], ws);
      DivModUnique(|data|, ws, (|data| - ws) / ws + 1, (|data| - ws) % ws);
    }
  }

  lemma {:induction false} WordsOfIndex(data: seq<Byte>, ws: nat, i: nat)
    requires ws >= 1 && i < |data| / ws
    ensures |WordsOf(data, ws)| == |data| / ws
    ensures WordsOf(data, ws)[i] == WordAt(data, ws, i)
    decreases i
  {
    WordsOfLength(data, ws);
    IndexInBounds(i, |data|, ws);
    if i > 0 {
      WordsOfLength(data[ws..], ws);
      var m := i - 1;
      assert m * ws + ws == i * ws;
      WordsOfIndex(data[ws..], ws, m);
      assert data[ws..][m * ws .. m * ws + ws] == data[i * ws .. i * ws + ws];
    }
  }

  /** Every element truncated to `ws` bytes. */
  function TruncAll(s: seq<int>, ws: nat): (r: seq<U64>)
    ensures |r| == |s|
  {
    seq(|s|, k requires 0 <= k < |s| => Trunc(s[k], ws))
  }

  lemma TruncAllSnoc(s: seq<int>, x: int, ws: nat)
    ensures TruncAll(s + [x], ws) == TruncAll(s, ws) + [Trunc(x, ws)]
  {
  }

  /** Values that fit the word size are stored as they are. */
  lemma TruncAllBelow(s: seq<int>, ws: nat)
    requires AllBelow(s, WordMod(ws))
    ensures TruncAll(s, ws) == s
  {
  }

  /** The byte image of a word sequence: each word's low `ws` bytes, in order. */
  function EncodeWords(s: seq<int>, ws: nat): (r: seq<Byte>)
    ensures |r| == |s| * ws
  {
    if s == [] then [] else WordBytes(s[0], ws) + EncodeWords(s[1..], ws)
  }

  /** DataBlock::set on the byte vector: overwrite the low `ws` bytes of word i. */
  function SetWord(data: seq<Byte>, ws: nat, i: nat, v: int): (r: seq<Byte>)
    requires ws >= 1 && i < |data| / ws
    ensures |r| == |data|
  {
    IndexInBounds(i, |data|, ws);
    if Known(ws) then data[..i * ws] + LEBytes(v % TWO_64, ws) + data[i * ws + ws..] else data
  }

  lemma AlignedGrow(len: nat, ws: nat)
    requires ws >= 1 && len % ws == 0
    ensures (len + ws) % ws == 0
  {
    DivModUnique(len, ws, len / ws, 0);
    DivModUnique(len + ws, ws, len / ws + 1, 0);
  }

  lemma DivOfMultiple(a: nat, ws: nat)
    requires ws >= 1
    ensures (a * ws) / ws == a && (a * ws) % ws == 0
  {
    DivModUnique(a * ws, ws, a, 0);
  }

  /** Splitting a byte vector at a word boundary splits its word view. */
  lemma {:induction false} WordsOfConcat(a: seq<Byte>, b: seq<Byte>, ws: nat, n: nat)
    requires ws >= 1 && |a| == n * ws
    ensures WordsOf(a + b, ws) == WordsOf(a, ws) + WordsOf(b, ws)
    decreases n
  {
    if n > 0 {
      var m := n - 1;
      assert |a| == m * ws + ws;
      assert (a + b)[..ws] == a[..ws];
      assert (a + b)[ws..] == a[ws..] + b;
      WordsOfConcat(a[ws..], b, ws, m);
    } else {
      assert a == [];
      assert a + b == b;
    }
  }

  lemma WordsOfConcatAligned(a: seq<Byte>, b: seq<Byte>, ws: nat)
    requires ws >= 1 && |a| % ws == 0
    ensures WordsOf(a + b, ws) == WordsOf(a, ws) + WordsOf(b, ws)
  {
    WordsOfConcat(a, b, ws, |a| / ws);
  }

  lemma WordsOfOne(bs: seq<Byte>, ws: nat)
    requires ws >= 1 && |bs| == ws
    ensures WordsOf(bs, ws) == [WordValue(bs, ws)]
  {
    assert bs[..ws] == bs && bs[ws..] == [];
  }

  /** A word in the middle of a byte vector, with the words around it. */
  lemma WordsOfSplit(pre: seq<Byte>, mid: seq<Byte>, post: seq<Byte>, ws: nat, i: nat)
    requires ws >= 1 && |pre| == i * ws && |mid| == ws
    ensures |WordsOf(pre, ws)| == i
    ensures WordsOf(pre + mid + post, ws) == WordsOf(pre, ws) + [WordValue(mid, ws)] + WordsOf(post, ws)
  {
    DivOfMultiple(i, ws);
    WordsOfLength(pre, ws);
    assert pre + mid + post == pre + (mid + post);
    WordsOfConcat(pre, mid + post, ws, i);
    WordsOfConcat(mid, post, ws, 1);
    WordsOfOne(mid, ws);
  }

  lemma WordOfWordBytes(v: int, ws: nat)
    requires ws >= 1
    ensures WordsOf(WordBytes(v, ws), ws) == [Trunc(v, ws)]
    ensures WordValue(WordBytes(v, ws), ws) == Trunc(v, ws)
  {
    WordsOfOne(WordBytes(v, ws), ws);
    if Known(ws) {
      WordModIsPow256(ws);
      LEOfLEBytes(v % TWO_64, ws);
      TruncWrap(v, ws);
    } else {
      LEOfZeros(ws);
    }
  }

  /** The word view of an encoded sequence is the sequence, truncated. */
  lemma {:induction false} WordsOfEncodeWords(s: seq<int>, ws: nat)
    requires ws >= 1
    ensures WordsOf(EncodeWords(s, ws), ws) == TruncAll(s, ws)
  {
    if s != [] {
      WordsOfEncodeWords(s[1..], ws);
      WordsOfConcat(WordBytes(s[0], ws), EncodeWords(s[1..], ws), ws, 1);
      WordOfWordBytes(s[0], ws);
      assert TruncAll(s, ws) == [Trunc(s[0], ws)] + TruncAll(s[1..], ws);
    }
  }

  /** Encoding the word view of an aligned byte vector gives the bytes back. */
  lemma {:induction false} EncodeWordsOfWordsOf(data: seq<Byte>, ws: nat)
    requires Known(ws) && |data| % ws == 0
    ensures EncodeWords(WordsOf(data, ws), ws) == data
    decreases |data|
  {
    if |data| > 0 {
      AlignedStep(|data|, ws);
      var first := data[..ws];
      var rest := data[ws..];
      var w := WordsOf(data, ws);
      assert w[0] == WordValue(first, ws) && w[1..] == WordsOf(rest, ws);
      EncodeWordsOfWordsOf(rest, ws);
      WordBytesOfWordValue(first, ws);
      assert data == first + rest;
    }
  }

  /** A non-empty aligned length holds at least one word, and what follows
      the first word is aligned too. */
  lemma AlignedStep(len: nat, ws: nat)
    requires ws >= 1 && len > 0 && len % ws == 0
    ensures len >= ws && (len - ws) % ws == 0
  {
    var q := len / ws;
    DivModUnique(len, ws, q, 0);
    MulAwayFromZero(ws, q);
    DivModUnique(len - ws, ws, q - 1, 0);
  }

  lemma WordBytesOfWordValue(bs: seq<Byte>, ws: nat)
    requires Known(ws) && |bs| == ws
    ensures WordBytes(WordValue(bs, ws), ws) == bs
  {
    WordModIsPow256(ws);
    LEBytesOfLE(bs);
    assert LE(bs) % TWO_64 == LE(bs);
  }

  /** Encoding one more word appends its bytes (the push_back order). */
  lemma {:induction false} EncodeWordsSnoc(s: seq<int>, x: int, ws: nat)
    ensures EncodeWords(s + [x], ws) == EncodeWords(s, ws) + WordBytes(x, ws)
    decreases |s|
  {
    if s != [] {
      assert (s + [x])[1..] == s[1..] + [x];
      EncodeWordsSnoc(s[1..], x, ws);
    }
  }

  /** set changes exactly the addressed word, to the truncated value. */
  lemma WordsOfSetWord(data: seq<Byte>, ws: nat, i: nat, v: int)
    requires ws >= 1 && i < |data| / ws
    ensures |WordsOf(data, ws)| == |data| / ws
    ensures WordsOf(SetWord(data, ws, i, v), ws) == WordsOf(data, ws)[i := Trunc(v, ws)]
  {
    WordsOfLength(data, ws);
    IndexInBounds(i, |data|, ws);
    if Known(ws) {
      var bytes := LEBytes(v % TWO_64, ws);
      assert bytes == WordBytes(v, ws);
      WordOfWordBytes(v, ws);
      ReplaceWord(data, ws, i, bytes);
    } else {
      WordsOfIndex(data, ws, i);
      var w := WordsOf(data, ws);
      assert w[i := 0] == w;
    }
  }

  /** Overwriting the bytes of word i with `bytes` changes word i only. */
  lemma ReplaceWord(data: seq<Byte>, ws: nat, i: nat, bytes: seq<Byte>)
    requires ws >= 1 && i * ws + ws <= |data| && |bytes| == ws
    ensures |WordsOf(data, ws)| == |data| / ws && i < |data| / ws
    ensures WordsOf(data[..i * ws] + bytes + data[i * ws + ws..], ws) == WordsOf(data, ws)[i := WordValue(bytes, ws)]
  {
    WordsOfLength(data, ws);
    var pre := data[..i * ws];
    var mid := data[i * ws .. i * ws + ws];
    var post := data[i * ws + ws..];
    assert WordsOf(data, ws) == WordsOf(pre, ws) + [WordValue(mid, ws)] + WordsOf(post, ws) by {
      assert data == pre + mid + post;
      WordsOfSplit(pre, mid, post, ws, i);
    }
    assert WordsOf(pre + bytes + post, ws) == WordsOf(pre, ws) + [WordValue(bytes, ws)] + WordsOf(post, ws) by {
      WordsOfSplit(pre, bytes, post, ws, i);
    }
    assert |WordsOf(pre, ws)| == i by {
      WordsOfSplit(pre, mid, post, ws, i);
    }
    UpdateMiddle(WordsOf(pre, ws), WordValue(mid, ws), WordValue(bytes, ws), WordsOf(post, ws));
  }

  lemma UpdateMiddle<T>(a: seq<T>, x: T, y: T, b: seq<T>)
    ensures (a + [x] + b)[|a| := y] == a + [y] + b
  {
  }

  /** Keeping the bytes of the first n words keeps the first n words. */
  lemma WordsOfPrefix(data: seq<Byte>, ws: nat, n: nat)
    requires ws >= 1 && n <= |data| / ws
    ensures n * ws <= |data| && |WordsOf(data, ws)| == |data| / ws
    ensures WordsOf(data[..n * ws], ws) == WordsOf(data, ws)[..n]
  {
    if n > 0 {
      IndexInBounds(n - 1, |data|, ws);
      assert (n - 1) * ws + ws == n * ws;
    }
    WordsOfLength(data, ws);
    WordsOfLength(data[..n * ws], ws);
    DivOfMultiple(n, ws);
    WordsOfConcat(data[..n * ws], data[n * ws..], ws, n);
    assert data == data[..n * ws] + data[n * ws..];
  }

  /** Zero bytes read as zero words. */
  lemma {:induction false} WordsOfZeros(n: nat, ws: nat)
    requires ws >= 1
    ensures forall k :: 0 <= k < |WordsOf(Zeros(n), ws)| ==> WordsOf(Zeros(n), ws)[k] == 0
    decreases n
  {
    if n >= ws {
      assert Zeros(n)[..ws] == Zeros(ws);
      assert Zeros(n)[ws..] == Zeros(n - ws);
      LEOfZeros(ws);
      WordsOfZeros(n - ws, ws);
    }
  }
  // ---------------------------------------------------------------------------
  // DataBlock

  /** A position in a block, counted in words (DataBlock::IteratorCore). */
  predicate AllBelow(s: seq<int>, m: nat)
  {
    forall i :: 0 <= i < |s| ==> 0 <= s[i] < m
  }

  /** Every word a block holds is below its word modulus. */
  lemma {:induction false} WordsBelow(data: seq<Byte>, ws: nat)
    requires ws >= 1
    ensures AllBelow(WordsOf(data, ws), WordMod(ws))
    decreases |data|
  {
    if |data| >= ws {
      WordsBelow(data[ws..], ws);
    }
  }

  datatype Iterator = Iterator(stream: DataBlock, position: nat)

  class DataBlock {
    /** Bytes per word; a uint8_t in the source. */
    var wordSize: nat
    var data: seq<Byte>

    ghost predicate Valid()
      reads this
    {
      1 <= wordSize < 256
    }

    /** The block as a sequence of words. */
    ghost function Words(): seq<U64>
      reads this
      requires Valid()
    {
      WordsOf(data, wordSize)
    }

    /** DataBlock(size, wsize): `size` zero words; the word size is stored in a uint8_t. */
    constructor (size: nat, wsize: nat)
      requires wsize % 256 != 0
      ensures Valid() && wordSize == wsize % 256 && data == Zeros(size * wsize)
      ensures wsize < 256 ==> Size() == size && forall k :: 0 <= k < size ==> Words()[k] == 0
    {
      wordSize := wsize % 256;
      data := Zeros(size * wsize);
      new;
      if wsize < 256 {
        DivOfMultiple(size, wsize);
        WordsOfLength(data, wordSize);
        WordsOfZeros(size * wsize, wordSize);
      }
    }

    /** size(): the number of whole words. */
    function Size(): (n: nat)
      reads this
      requires Valid()
      ensures n * wordSize <= |data| < n * wordSize + wordSize
      ensures n == |Words()|
    {
      WordsOfLength(data, wordSize);
      |data| / wordSize
    }

    function Empty(): (b: bool)
      reads this
      requires Valid()
      ensures b <==> |data| == 0
      ensures b ==> Words() == []
    {
      |data| == 0
    }

    /** get(i): word i, zero-extended; an unknown word size reads 0. */
    function Get(i: nat): (v: U64)
      reads this
      requires Valid() && i < Size()
      ensures v < WordMod(wordSize)
      ensures v == Words()[i]
      ensures Known(wordSize) ==> WordBytes(v, wordSize) == data[i * wordSize .. i * wordSize + wordSize]
    {
      IndexInBounds(i, |data|, wordSize);
      WordsOfIndex(data, wordSize, i);
      WordAtBytes(data, wordSize, i);
      WordAt(data, wordSize, i)
    }

    /** set(i, v): store v truncated to the word size; nothing else changes. */
    method Set(i: nat, v: U64)
      requires Valid() && i < Size()
      modifies this
      ensures Valid() && wordSize == old(wordSize) && |data| == old(|data|)
      ensures Words() == old(Words())[i := Trunc(v, wordSize)]
      ensures i * wordSize + wordSize <= |data|
      ensures data[..i * wordSize] == old(data)[..i * wordSize]
      ensures data[i * wordSize + wordSize..] == old(data)[i * wordSize + wordSize..]
    {
      IndexInBounds(i, |data|, wordSize);
      WordsOfSetWord(data, wordSize, i, v);
      data := SetWord(data, wordSize, i, v);
    }

    /** push_back(v): grow by one word and store v, truncated, in it. */
    method PushBack(v: U64)
      requires Valid()
      modifies this
      ensures Valid() && wordSize == old(wordSize)
      ensures data == old(data) + WordBytes(v, wordSize)
      ensures old(|data|) % wordSize == 0 ==> Words() == old(Words()) + [Trunc(v, wordSize)]
      ensures old(|data|) % wordSize == 0 ==> |data| % wordSize == 0
    {
      if |data| % wordSize == 0 {
        WordsOfConcatAligned(data, WordBytes(v, wordSize), wordSize);
        WordOfWordBytes(v, wordSize);
        AlignedGrow(|data|, wordSize);
      }
      data := data + WordBytes(v, wordSize);
    }

    /** resize(n): the byte length becomes n words; new bytes are zero. */
    method Resize(n: nat)
      requires Valid()
      modifies this
      ensures Valid() && wordSize == old(wordSize)
      ensures data == ResizeBytes(old(data), n * wordSize)
      ensures |data| == n * wordSize && |data| % wordSize == 0 && Size() == n
      ensures forall k :: 0 <= k < n && k < old(Size()) ==> Words()[k] == old(Words())[k]
      ensures old(|data|) % wordSize == 0 ==> forall k :: old(Size()) <= k < n ==> Words()[k] == 0
      ensures n <= old(Size()) ==> Words() == old(Words())[..n]
    {
      var len := n * wordSize;
      DivOfMultiple(n, wordSize);
      DivBounds(|data|, wordSize);
      assert n <= |data| / wordSize ==> len <= |data| by {
        if n <= |data| / wordSize {
          assert n * wordSize <= (|data| / wordSize) * wordSize;
        }
      }
      if len <= |data| {
        ShrinkWords(data, wordSize, n);
      } else {
        GrowWords(data, wordSize, len - |data|);
      }
      data := ResizeBytes(data, len);
      WordsOfLength(data, wordSize);
    }

    method Clear()
      requires Valid()
      modifies this
      ensures Valid() && wordSize == old(wordSize) && data == [] && Words() == []
      ensures |data| % wordSize == 0
    {
      data := [];
    }

    /** setWordSize(size): the word size is assigned first; ok == false is the
        "Could not resize" exception, raised when the bytes do not split into
        whole words of the new size. */
    method SetWordSize(size: nat) returns (ok: bool)
      requires 1 <= size < 256
      modifies this
      ensures Valid() && wordSize == size && data == old(data)
      ensures ok <==> |data| % size == 0
    {
      wordSize := size;
      ok := |data| % size == 0;
    }

    /** operator=(const DataBlock&): copy word size and contents of d. */
    method Assign(d: DataBlock)
      requires d.Valid()
      modifies this
      ensures Valid() && wordSize == old(d.wordSize) && data == old(d.data)
    {
      wordSize := d.wordSize;
      data := d.data;
    }

    /** swap(d): exchange word sizes and contents. */
    method Swap(d: DataBlock)
      requires Valid() && d.Valid()
      modifies this, d
      ensures Valid() && d.Valid()
      ensures d != this ==> wordSize == old(d.wordSize) && data == old(d.data)
      ensures d != this ==> d.wordSize == old(wordSize) && d.data == old(data)
      ensures d == this ==> wordSize == old(wordSize) && data == old(data)
    {
      var tmp := wordSize;
      wordSize := d.wordSize;
      d.wordSize := tmp;
      var tmpData := data;
      data := d.data;
      d.data := tmpData;
    }

    /** operator==: same word size and same bytes. */
    function Equals(d: DataBlock): (b: bool)
      reads this, d
      requires Valid() && d.Valid()
      ensures b <==> wordSize == d.wordSize && data == d.data
      ensures b ==> Words() == d.Words()
    {
      wordSize == d.wordSize && data == d.data
    }

    /** operator=(initializer_list): resize to the list, then set every word. */
    method AssignList(il: seq<U64>)
      requires Valid()
      modifies this
      ensures Valid() && wordSize == old(wordSize)
      ensures Size() == |il| && Words() == TruncAll(il, wordSize)
    {
      Resize(|il|);
      var ctr := 0;
      while ctr < |il|
        invariant Valid() && wordSize == old(wordSize)
        invariant 0 <= ctr <= |il| && Size() == |il|
        invariant forall k :: 0 <= k < ctr ==> Words()[k] == Trunc(il[k], wordSize)
      {
        Set(ctr, il[ctr]);
        ctr := ctr + 1;
      }
    }

    function Begin(): (it: Iterator)
      reads this
      ensures it.stream == this && it.position == 0
    {
      Iterator(this, 0)
    }

    function End(): (it: Iterator)
      reads this
      requires Valid()
      ensures it.stream == this && it.position == Size()
    {
      Iterator(this, |data| / wordSize)
    }

    /** insert(pos, start, end): a no-op unless pos belongs to this block and
        start and end share one; otherwise words [start, end) of that block go
        in before word pos. The source offsets the byte vectors by the
        iterators' word positions, which is only right for 1-byte words (see
        InsertAsWritten); this is the word insertion it stands for. */
    method Insert(pos: Iterator, start: Iterator, end: Iterator)
      requires Valid()
      requires pos.stream == this && start.stream == end.stream ==>
                 start.stream != this && start.stream.Valid() && start.stream.wordSize == wordSize &&
                 pos.position <= Size() && start.position <= end.position <= start.stream.Size()
      modifies this
      ensures Valid() && wordSize == old(wordSize)
      ensures pos.stream != this || start.stream != end.stream ==> data == old(data)
      ensures pos.stream == this && start.stream == end.stream ==>
                data == InsertWords(old(data), pos.position, start.stream.data, start.position, end.position, wordSize)
      ensures pos.stream == this && start.stream == end.stream ==>
                Words() == old(Words())[..pos.position] + start.stream.Words()[start.position..end.position]
                           + old(Words())[pos.position..]
    {
      if pos.stream != this || start.stream != end.stream {
        return;
      }
      var ws := wordSize;
      InsertBounds(|data|, pos.position, |start.stream.data|, start.position, end.position, ws);
      InsertWordsSpec(data, pos.position, start.stream.data, start.position, end.position, ws);
      data := data[..pos.position * ws] + start.stream.data[start.position * ws..end.position * ws]
              + data[pos.position * ws..];
    }

    /** getReader(): a stepper over all bytes of the block. */
    method GetReader() returns (r: BlockStepper)
      requires Valid() && |data| % wordSize == 0
      ensures fresh(r) && r.Valid()
      ensures r.block == this && r.curr == 0 && r.end == |data| && r.wordSize == wordSize
      ensures r.Index() == 0
    {
      r := new BlockStepper(this, 0, |data|, wordSize);
    }
  }

  lemma WordAtBytes(data: seq<Byte>, ws: nat, i: nat)
    requires ws >= 1 && i < |data| / ws
    ensures i * ws + ws <= |data|
    ensures Known(ws) ==> WordBytes(WordAt(data, ws, i), ws) == data[i * ws .. i * ws + ws]
  {
    IndexInBounds(i, |data|, ws);
    if Known(ws) {
      WordBytesOfWordValue(data[i * ws .. i * ws + ws], ws);
    }
  }

  /** std::vector::resize on the bytes: truncate, or extend with zeros. */
  function ResizeBytes(data: seq<Byte>, len: nat): (r: seq<Byte>)
    ensures |r| == len
  {
    if len <= |data| then data[..len] else data + Zeros(len - |data|)
  }

  /** Appending zero bytes keeps every whole word already there. */
  lemma GrowKeepsWord(data: seq<Byte>, ws: nat, extra: nat, k: nat)
    requires ws >= 1 && k < |data| / ws
    ensures k < |(data + Zeros(extra))| / ws
    ensures WordAt(data + Zeros(extra), ws, k) == WordAt(data, ws, k)
  {
    var nd := data + Zeros(extra);
    IndexInBounds(k, |data|, ws);
    DivMono(|data|, |nd|, ws);
    var lo := k * ws;
    assert nd[lo .. lo + ws] == data[lo .. lo + ws];
  }


  /** Shrinking to n words keeps the first n words. */
  lemma ShrinkWords(data: seq<Byte>, ws: nat, n: nat)
    requires ws >= 1 && n * ws <= |data|
    ensures |WordsOf(data, ws)| == |data| / ws && n <= |data| / ws
    ensures WordsOf(data[..n * ws], ws) == WordsOf(data, ws)[..n]
  {
    MulNonNegative(n, ws);
    var m: nat := n * ws;
    DivOfMultiple(n, ws);
    DivMono(m, |data|, ws);
    WordsOfLength(data, ws);
    WordsOfPrefix(data, ws, n);
  }

  /** Growing by zero bytes keeps the whole words and, from an aligned
      length, adds zero words. */
  lemma GrowWords(data: seq<Byte>, ws: nat, extra: nat)
    requires ws >= 1
    ensures |WordsOf(data, ws)| == |data| / ws
    ensures |WordsOf(data + Zeros(extra), ws)| == (|data| + extra) / ws
    ensures |WordsOf(data, ws)| <= |WordsOf(data + Zeros(extra), ws)|
    ensures forall k :: 0 <= k < |WordsOf(data, ws)| ==>
              WordsOf(data + Zeros(extra), ws)[k] == WordsOf(data, ws)[k]
    ensures |data| % ws == 0 ==> forall k :: |WordsOf(data, ws)| <= k < |WordsOf(data + Zeros(extra), ws)| ==>
              WordsOf(data + Zeros(extra), ws)[k] == 0
  {
    var nd := data + Zeros(extra);
    var w := WordsOf(data, ws);
    var wn := WordsOf(nd, ws);
    WordsOfLength(data, ws);
    WordsOfLength(nd, ws);
    DivMono(|data|, |nd|, ws);
    forall k | 0 <= k < |w|
      ensures wn[k] == w[k]
    {
      GrowKeepsWord(data, ws, extra, k);
      WordsOfIndex(nd, ws, k);
      WordsOfIndex(data, ws, k);
    }
    if |data| % ws == 0 {
      WordsOfConcatAligned(data, Zeros(extra), ws);
      WordsOfZeros(extra, ws);
    }
  }

  lemma DivMono(a: nat, b: nat, ws: nat)
    requires ws >= 1 && a <= b
    ensures a / ws <= b / ws
  {
    DivModUnique(a, ws, a / ws, a % ws);
    DivModUnique(b, ws, b / ws, b % ws);
    MulAwayFromZero(ws, a / ws - b / ws);
  }

  /** The byte insertion DataBlock::insert performs. */
  function InsertAsWritten(dst: seq<Byte>, pos: nat, src: seq<Byte>, from: nat, to: nat): (r: seq<Byte>)
    requires pos <= |dst| && from <= to <= |src|
    ensures |r| == |dst| + (to - from)
  {
    dst[..pos] + src[from..to] + dst[pos..]
  }

  /** The insertion the iterator interface calls for: the bytes of words
      [from, to) of `src` go in before word `pos` of `dst`. */
  function InsertWords(dst: seq<Byte>, pos: nat, src: seq<Byte>, from: nat, to: nat, ws: nat): (r: seq<Byte>)
    requires ws >= 1 && pos <= |dst| / ws && from <= to <= |src| / ws
    ensures |r| == |dst| + (to - from) * ws
  {
    InsertBounds(|dst|, pos, |src|, from, to, ws);
    dst[..pos * ws] + src[from * ws..to * ws] + dst[pos * ws..]
  }

  /** Dropping the bytes of the first n words drops the first n words. */
  lemma WordsOfSuffix(data: seq<Byte>, ws: nat, n: nat)
    requires ws >= 1 && n <= |data| / ws
    ensures n * ws <= |data| && |WordsOf(data, ws)| == |data| / ws
    ensures WordsOf(data[n * ws..], ws) == WordsOf(data, ws)[n..]
  {
    WordsWithin(n, |data|, ws);
    WordsOfLength(data, ws);
    var m := n * ws;
    var pre, post := data[..m], data[m..];
    WordsOfLength(pre, ws);
    DivOfMultiple(n, ws);
    WordsOfConcat(pre, post, ws, n);
    SplitJoin(data, m);
    DropPrefix(WordsOf(data, ws), WordsOf(pre, ws), WordsOf(post, ws), n);
  }

  lemma SplitJoin<T>(s: seq<T>, m: nat)
    requires m <= |s|
    ensures s[..m] + s[m..] == s
  {
  }

  lemma DropPrefix<T>(w: seq<T>, a: seq<T>, b: seq<T>, n: nat)
    requires w == a + b && |a| == n
    ensures w[n..] == b
  {
  }

  /** The words a word-aligned insertion leaves: those of `dst` before `pos`,
      words [from, to) of `src`, then the rest of `dst`. */
  lemma InsertWordsSpec(dst: seq<Byte>, pos: nat, src: seq<Byte>, from: nat, to: nat, ws: nat)
    requires ws >= 1 && pos <= |dst| / ws && from <= to <= |src| / ws
    ensures |WordsOf(dst, ws)| == |dst| / ws && |WordsOf(src, ws)| == |src| / ws
    ensures WordsOf(InsertWords(dst, pos, src, from, to, ws), ws)
            == WordsOf(dst, ws)[..pos] + WordsOf(src, ws)[from..to] + WordsOf(dst, ws)[pos..]
  {
    InsertBounds(|dst|, pos, |src|, from, to, ws);
    var head, mid, tail := dst[..pos * ws], src[from * ws..to * ws], dst[pos * ws..];
    WordsOfJoin(head, mid, tail, ws, pos, to - from);
    WordsOfPrefix(dst, ws, pos);
    WordsOfSuffix(dst, ws, pos);
    WordsOfSlice(src, ws, from, to);
  }

  lemma InsertBounds(dlen: nat, pos: nat, slen: nat, from: nat, to: nat, ws: nat)
    requires ws >= 1 && pos <= dlen / ws && from <= to <= slen / ws
    ensures pos * ws <= dlen && from * ws <= to * ws <= slen
    ensures to * ws - from * ws == (to - from) * ws
  {
    WordsWithin(pos, dlen, ws);
    WordsWithin(to, slen, ws);
    MulMonotone(from, to, ws);
  }

  lemma WordsWithin(n: nat, len: nat, ws: nat)
    requires ws >= 1 && n <= len / ws
    ensures n * ws <= len
  {
    if n > 0 {
      IndexInBounds(n - 1, len, ws);
      assert (n - 1) * ws + ws == n * ws;
    }
  }

  /** Three byte runs of whole words, the first two aligned, read as their
      words in turn. */
  lemma WordsOfJoin(head: seq<Byte>, mid: seq<Byte>, tail: seq<Byte>, ws: nat, p: nat, q: nat)
    requires ws >= 1 && |head| == p * ws && |mid| == q * ws
    ensures WordsOf(head + mid + tail, ws) == WordsOf(head, ws) + WordsOf(mid, ws) + WordsOf(tail, ws)
  {
    WordsOfConcat(mid, tail, ws, q);
    WordsOfConcat(head, mid + tail, ws, p);
    assert head + mid + tail == head + (mid + tail);
  }

  /** The bytes of words [from, to) hold exactly those words. */
  lemma WordsOfSlice(data: seq<Byte>, ws: nat, from: nat, to: nat)
    requires ws >= 1 && from <= to <= |data| / ws
    ensures from * ws <= to * ws <= |data| && |WordsOf(data, ws)| == |data| / ws
    ensures WordsOf(data[from * ws..to * ws], ws) == WordsOf(data, ws)[from..to]
  {
    WordsWithin(to, |data|, ws);
    MulMonotone(from, to, ws);
    WordsOfLength(data, ws);
    var head := data[..to * ws];
    var w := WordsOf(data, ws);
    assert WordsOf(head, ws) == w[..to] by { WordsOfPrefix(data, ws, to); }
    DivOfMultiple(to, ws);
    WordsOfSuffix(head, ws, from);
    assert head[from * ws..] == data[from * ws..to * ws];
  }

  /** With 2-byte words, inserting word 1 of [7, 0, 8, 0] at word 1 of [1, 0]
      copies the single byte 0 to byte 1 as written, where the word insertion
      gives the words 1 then 8. */
  lemma InsertAsWrittenSplitsWords()
    ensures InsertAsWritten([1, 0], 1, [7, 0, 8, 0], 1, 2) == [1, 0, 0]
    ensures |InsertAsWritten([1, 0], 1, [7, 0, 8, 0], 1, 2)| % 2 != 0
    ensures InsertWords([1, 0], 1, [7, 0, 8, 0], 1, 2, 2) == [1, 0, 8, 0]
  {
  }

  // ---------------------------------------------------------------------------
  // BlockStepper

  /** Sequential access to a block by raw byte pointers. `block` stands for
      the memory `curr` and `end` point into; both are byte offsets in it. */
  class BlockStepper {
    var block: DataBlock
    var curr: nat
    var end: nat
    var wordSize: nat

    ghost predicate Valid()
      reads this, block
    {
      block.Valid() && wordSize == block.wordSize && end == |block.data| &&
      curr <= end && curr % wordSize == 0 && end % wordSize == 0
    }

    constructor (b: DataBlock, c: nat, e: nat, ws: nat)
      ensures block == b && curr == c && end == e && wordSize == ws
    {
      block := b;
      curr := c;
      end := e;
      wordSize := ws;
    }

    /** The word curr points to. */
    ghost function Index(): nat
      reads this
    {
      if wordSize == 0 then 0 else curr / wordSize
    }

    /** isValid(): curr has not reached end, i.e. a word is left. */
    function IsValid(): (b: bool)
      reads this, block
      requires Valid()
      ensures b <==> Index() < block.Size()
    {
      StepperIndexLemma(curr, end, wordSize);
      curr != end
    }

    /** inc(): move to the next word. */
    method Inc()
      requires Valid() && curr < end
      modifies this
      ensures Valid() && block == old(block) && end == old(end) && wordSize == old(wordSize)
      ensures curr == old(curr) + wordSize && Index() == old(Index()) + 1
    {
      StepperIndexLemma(curr, end, wordSize);
      curr := curr + wordSize;
      DivModUnique(curr, wordSize, old(curr) / wordSize + 1, 0);
    }

    /** get(): the current word, zero-extended; an unknown word size reads 0. */
    function Get(): (v: U64)
      reads this, block
      requires Valid() && curr < end
      ensures Index() < block.Size() && v == block.Words()[Index()]
    {
      StepperIndexLemma(curr, end, wordSize);
      StepperOffset(curr, wordSize);
      block.Get(curr / wordSize)
    }

    /** set(v): store v, truncated, in the current word. */
    method Set(v: U64)
      requires Valid() && curr < end
      modifies block
      ensures Valid() && Index() < block.Size() && Index() < |old(block.Words())|
      ensures block.wordSize == old(block.wordSize) && |block.data| == old(|block.data|)
      ensures block.Words() == old(block.Words())[Index() := Trunc(v, wordSize)]
    {
      StepperIndexLemma(curr, end, wordSize);
      block.Set(curr / wordSize, v);
    }
  }

  /** `w.set(v); w.inc();` for a writing stepper that trails a reader at
      word k: the words written so far grow by v, those after k stay. */
  method WriteAdvance(w: BlockStepper, v: U64, ghost k: nat)
    requires w.Valid() && w.Index() <= k < |w.block.Words()| && v < WordMod(w.block.wordSize)
    modifies w.block, w
    ensures w.Valid() && w.block == old(w.block) && w.end == old(w.end)
    ensures w.block.wordSize == old(w.block.wordSize) && |w.block.data| == old(|w.block.data|)
    ensures |w.block.Words()| == old(|w.block.Words()|) && w.Index() == old(w.Index()) + 1
    ensures w.block.Words()[..w.Index()] == old(w.block.Words())[..old(w.Index())] + [v]
    ensures w.block.Words()[k + 1..] == old(w.block.Words())[k + 1..]
  {
    ghost var j := w.Index();
    ghost var before := w.block.Words();
    assert w.IsValid();
    w.Set(v);
    WordWritten(before, w.block.Words(), j, k);
    w.Inc();
  }

  /** `tmp = r.get(); r.inc();` on a reader whose remaining words agree
      with w0. */
  method ReadRaw(r: BlockStepper, ghost w0: seq<U64>) returns (tmp: U64)
    requires r.Valid() && r.curr < r.end && r.Index() <= |w0| == |r.block.Words()|
    requires r.block.Words()[r.Index()..] == w0[r.Index()..]
    modifies r
    ensures r.Valid() && r.block == old(r.block) && r.end == old(r.end) && r.wordSize == old(r.wordSize)
    ensures r.Index() == old(r.Index()) + 1 <= |w0| && r.curr == old(r.curr) + r.wordSize
    ensures tmp == w0[old(r.Index())] && tmp < WordMod(r.block.wordSize)
    ensures r.block.Words()[r.Index()..] == w0[r.Index()..]
  {
    ghost var k := r.Index();
    ghost var before := r.block.Words();
    tmp := r.Get();
    assert tmp == w0[k] by { assert w0[k..][0] == before[k..][0]; }
    WordsBelow(r.block.data, r.block.wordSize);
    r.Inc();
    assert before[k + 1..] == before[k..][1..] && w0[k + 1..] == w0[k..][1..];
  }

  /** Words past position k that a write left alone still agree with w0. */
  lemma SuffixKept(before: seq<U64>, after: seq<U64>, w0: seq<U64>, k: nat)
    requires k < |before| == |w0| == |after| && before[k..] == w0[k..] && after[k + 1..] == before[k + 1..]
    ensures after[k + 1..] == w0[k + 1..]
  {
    assert before[k + 1..] == before[k..][1..];
    assert w0[k + 1..] == w0[k..][1..];
  }

  /** Word j <= k of a block rewritten: the prefix up to j grows by it and
      the words after k are untouched. */
  lemma WordWritten(before: seq<U64>, after: seq<U64>, j: nat, k: nat)
    requires j <= k < |before| == |after| && after == before[j := after[j]]
    ensures after[..j + 1] == before[..j] + [after[j]]
    ensures after[k + 1..] == before[k + 1..]
  {
  }

  /** The word count resize receives after a writing stepper stopped: the
      words it passed. */
  lemma StepperCut(w: BlockStepper)
    requires w.Valid()
    ensures w.block.Size() >= (w.end - w.curr) / w.wordSize
    ensures w.block.Size() - (w.end - w.curr) / w.wordSize == w.Index()
  {
    StepperRemaining(w.curr, w.end, w.wordSize);
    StepperIndexLemma(w.curr, w.end, w.wordSize);
  }

  lemma StepperIndexLemma(curr: nat, end: nat, ws: nat)
    requires ws >= 1 && curr <= end && curr % ws == 0 && end % ws == 0
    ensures curr / ws <= end / ws
    ensures curr != end <==> curr / ws < end / ws
    ensures curr < end ==> curr + ws <= end
  {
    DivModUnique(curr, ws, curr / ws, 0);
    DivModUnique(end, ws, end / ws, 0);
    if curr < end {
      assert ws * (end / ws - curr / ws) > 0;
      MulAwayFromZero(ws, end / ws - curr / ws);
    } else {
      assert curr == end;
    }
  }

  /** The words a stepper has not yet passed: (end - curr) / wordSize. */
  lemma StepperRemaining(curr: nat, end: nat, ws: nat)
    requires ws >= 1 && curr <= end && curr % ws == 0 && end % ws == 0
    ensures (end - curr) / ws == end / ws - curr / ws
  {
    StepperIndexLemma(curr, end, ws);
    DivModUnique(curr, ws, curr / ws, 0);
    DivModUnique(end, ws, end / ws, 0);
    assert end - curr == ws * (end / ws - curr / ws);
    DivModUnique(end - curr, ws, end / ws - curr / ws, 0);
  }

  lemma StepperOffset(curr: nat, ws: nat)
    requires ws >= 1 && curr % ws == 0
    ensures (curr / ws) * ws == curr
  {
    DivModUnique(curr, ws, curr / ws, 0);
  }
}
