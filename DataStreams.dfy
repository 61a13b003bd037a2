// gabac::DataStream (data_stream.h): the older word-size-aware byte vector.
// Unlike DataBlock it checks indices, but against the BYTE count, and it
// treats every word size other than 1, 2 and 4 as 8 bytes wide.
module DataStreams {
  import opened Bytes

  datatype Error = InvalidIndex

  datatype Result<T> = Ok(value: T) | Err(error: Error)

  /** Bytes get/set touch for a word size: 1, 2, 4, or else 8 (the `case 8`
      fall-through to `default`). */
  function Width(ws: nat): (w: nat)
    ensures w == 1 || w == 2 || w == 4 || w == 8
  {
    if ws == 1 || ws == 2 || ws == 4 then ws else 8
  }

  /** The access at element `index` stays inside the vector. The source does
      not check this: a violation is undefined behaviour. */
  predicate InBounds(len: nat, ws: nat, index: nat)
  {
    ws * index + Width(ws) <= len
  }

  /** get(index) on the bytes. */
  function StreamGet(data: seq<Byte>, ws: nat, index: nat): (r: Result<U64>)
    requires index < |data| ==> InBounds(|data|, ws, index)
    ensures r.Err? <==> index >= |data|
    ensures r.Ok? ==> r.value < Pow256(Width(ws))
  {
    if index >= |data| then Err(InvalidIndex)
    else
      var w := LE(data[ws * index .. ws * index + Width(ws)]);
      assert Pow256(Width(ws)) <= TWO_64 by { WordModIsPow256(Width(ws)); }
      Ok(w)
  }

  /** set(index, v) on the bytes: the low Width(ws) bytes of v at byte ws*index. */
  function StreamSet(data: seq<Byte>, ws: nat, index: nat, v: U64): (r: Result<seq<Byte>>)
    requires index < |data| ==> InBounds(|data|, ws, index)
    ensures r.Err? <==> index >= |data|
    ensures r.Ok? ==> |r.value| == |data|
  {
    if index >= |data| then Err(InvalidIndex)
    else Ok(data[..ws * index] + LEBytes(v, Width(ws)) + data[ws * index + Width(ws)..])
  }

  /** Reading back what set stored gives the value truncated to the width. */
  lemma StreamGetAfterSet(data: seq<Byte>, ws: nat, index: nat, v: U64)
    requires index < |data| && InBounds(|data|, ws, index)
    ensures StreamSet(data, ws, index, v).Ok?
    ensures StreamGet(StreamSet(data, ws, index, v).value, ws, index) == Ok(v % Pow256(Width(ws)))
  {
    var d := StreamSet(data, ws, index, v).value;
    assert d[ws * index .. ws * index + Width(ws)] == LEBytes(v, Width(ws));
    LEOfLEBytes(v, Width(ws));
  }

  /** set leaves every byte outside the addressed element as it was. */
  lemma StreamSetFrame(data: seq<Byte>, ws: nat, index: nat, v: U64, k: nat)
    requires index < |data| && InBounds(|data|, ws, index)
    requires k < |data| && (k < ws * index || ws * index + Width(ws) <= k)
    ensures StreamSet(data, ws, index, v).Ok? && StreamSet(data, ws, index, v).value[k] == data[k]
  {
  }

  // ---------------------------------------------------------------------------
  // The index check

  /** The check lets through indices whose access leaves the vector: with
      word size 2 and one element (two bytes), index 1 passes `index >= size()`
      of the bytes yet addresses bytes 2 and 3. */
  lemma IndexCheckAdmitsOutOfBounds()
    ensures var data: seq<Byte> := [7, 0];
            !(1 >= |data|) && !InBounds(|data|, 2, 1)
  {
  }

  /** The evidently intended check: against the element count. */
  function StreamGetChecked(data: seq<Byte>, ws: nat, index: nat): (r: Result<U64>)
    requires 1 <= ws && Width(ws) <= ws
    ensures r.Err? <==> index >= |data| / ws
    ensures r.Ok? ==> InBounds(|data|, ws, index) && r == StreamGet(data, ws, index)
  {
    if index >= |data| / ws then Err(InvalidIndex)
    else
      CheckedIndexInBounds(|data|, ws, index);
      StreamGet(data, ws, index)
  }

  /** With the element-count check every admitted index is in bounds. */
  lemma CheckedIndexInBounds(len: nat, ws: nat, index: nat)
    requires 1 <= ws && Width(ws) <= ws && index < len / ws
    ensures InBounds(len, ws, index) && index < len
  {
    var q := len / ws;
    DivBounds(len, ws);
    MulMonotone(index + 1, q, ws);
    MulMonotone(1, ws, q);
    assert ws * index + ws == (index + 1) * ws;
  }

  // ---------------------------------------------------------------------------
  // The class

  class DataStream {
    /** Bytes per element; a uint8_t in the source. */
    var wordSize: nat
    var data: seq<Byte>

    ghost predicate Valid()
      reads this
    {
      1 <= wordSize < 256
    }

    /** DataStream(size, wsize) */
    constructor (size: nat, wsize: nat)
      requires wsize % 256 != 0
      ensures Valid() && wordSize == wsize % 256 && data == Zeros(size * wsize)
    {
      wordSize := wsize % 256;
      data := Zeros(size * wsize);
    }

    /** size(): whole elements. */
    function Size(): (n: nat)
      reads this
      requires Valid()
      ensures n * wordSize <= |data| < n * wordSize + wordSize
    {
      var n := |data| / wordSize;
      DivBounds(|data|, wordSize);
      n
    }

    function Get(index: nat): (r: Result<U64>)
      reads this
      requires index < |data| ==> InBounds(|data|, wordSize, index)
      ensures r.Err? <==> index >= |data|
    {
      StreamGet(data, wordSize, index)
    }

    method Set(index: nat, v: U64) returns (r: Result<()>)
      requires index < |data| ==> InBounds(|data|, wordSize, index)
      modifies this
      ensures wordSize == old(wordSize)
      ensures r.Err? <==> index >= old(|data|)
      ensures r.Err? ==> data == old(data)
      ensures r.Ok? ==> data == StreamSet(old(data), wordSize, index, v).value
    {
      var s := StreamSet(data, wordSize, index, v);
      if s.Err? {
        return Err(s.error);
      }
      data := s.value;
      return Ok(());
    }

    /** resize(n): the byte length becomes n*wordSize. */
    method Resize(n: nat)
      modifies this
      ensures wordSize == old(wordSize) && |data| == n * wordSize
      ensures n * wordSize <= old(|data|) ==> data == old(data)[..n * wordSize]
      ensures n * wordSize > old(|data|) ==> data == old(data) + Zeros(n * wordSize - old(|data|))
    {
      if n * wordSize <= |data| {
        data := data[..n * wordSize];
      } else {
        data := data + Zeros(n * wordSize - |data|);
      }
    }

    /** push_back(v): grow by one element, then set the last element. */
    method PushBack(v: U64)
      requires Valid() && Width(wordSize) <= wordSize
      modifies this
      ensures wordSize == old(wordSize) && |data| == old(|data|) + wordSize
      ensures data[..WholeBytes(old(|data|), wordSize)] == old(data)[..WholeBytes(old(|data|), wordSize)]
      ensures Size() >= 1 && InBounds(|data|, wordSize, Size() - 1)
      ensures Get(Size() - 1) == Ok(v % Pow256(Width(wordSize)))
    {
      ghost var len := |data|;
      data := data + Zeros(wordSize);
      var last := |data| / wordSize - 1;
      PushBackIndex(len, wordSize);
      ghost var before := data;
      var r := Set(last, v);
      StreamGetAfterSet(before, wordSize, last, v);
    }

    method Clear()
      modifies this
      ensures wordSize == old(wordSize) && data == []
    {
      data := [];
    }

    /** swap(d): exchange word sizes and data. */
    method Swap(d: DataStream)
      modifies this, d
      ensures d != this ==> wordSize == old(d.wordSize) && data == old(d.data)
      ensures d != this ==> d.wordSize == old(wordSize) && d.data == old(data)
      ensures d == this ==> wordSize == old(wordSize) && data == old(data)
    {
      var tmp := wordSize;
      wordSize := d.wordSize;
      d.wordSize := tmp;
      var tmpData := data;
      data := d.data;
      d.data := tmpData;
    }

    /** operator==: same word size and same bytes. */
    function Equals(d: DataStream): (b: bool)
      reads this, d
      ensures b <==> wordSize == d.wordSize && data == d.data
      ensures b && Valid() ==> Size() == d.Size()
    {
      wordSize == d.wordSize && data == d.data
    }
  }

  /** The bytes of the whole elements in `len` bytes. */
  function WholeBytes(len: nat, ws: nat): (r: nat)
    requires ws >= 1
    ensures r <= len
  {
    len - len % ws
  }

  /** The last element after growing `len` bytes by one element starts at
      the old whole-element boundary and fits in the new length. */
  lemma PushBackIndex(len: nat, ws: nat)
    requires ws >= 1
    ensures (len + ws) / ws >= 1
    ensures ws * ((len + ws) / ws - 1) == WholeBytes(len, ws)
    ensures ws * ((len + ws) / ws - 1) + ws <= len + ws
    ensures (len + ws) / ws - 1 < len + ws
  {
    DivModUnique(len + ws, ws, len / ws + 1, len % ws);
    DivBounds(len, ws);
  }
}
