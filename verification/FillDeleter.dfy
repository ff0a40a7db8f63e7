/** local-pv-provisioner's FillDeleter: zeroes the places of a device where a Ceph label may stand. */
module FillDeleter {

  import opened Text

  newtype Byte = x: int | 0 <= x < 256

  const GI := 1024 * 1024 * 1024
  const POSITIONS := [0, GI, 10 * GI, 100 * GI, 1000 * GI]
  const MAX_INT64 := 0x7fff_ffff_ffff_ffff
  const MAX_UINT64 := 0xffff_ffff_ffff_ffff

  /** The value of a Go int64 expression whose exact value is x. */
  function Int64(x: int): int {
    var y := x % (MAX_UINT64 + 1);
    if y > MAX_INT64 then y - (MAX_UINT64 + 1) else y
  }

  /** It differs from x by a multiple of 2 to the 64th and fits in 64 bits with a sign. */
  lemma {:induction false} Int64Means(x: int)
    ensures -9223372036854775808 <= Int64(x) <= 9223372036854775807
    ensures (x - Int64(x)) % 18446744073709551616 == 0
  {
  }

  lemma Int64Exact(x: int)
    requires 0 <= x <= MAX_INT64
    ensures Int64(x) == x
  {
  }

  /** Byte b is to be wiped: it lies less than `length` after one of the first n label positions inside the device. */
  ghost predicate Targeted(b: int, size: int, length: int, n: nat)
    requires n <= |POSITIONS|
  {
    exists k | 0 <= k < n :: POSITIONS[k] < size && POSITIONS[k] <= b < POSITIONS[k] + length
  }

  /** Byte b of a device is where a label may stand: less than `length` after 0, 1, 10, 100 or 1000 GiB. */
  ghost predicate Labelled(b: int, size: int, length: int) {
    b < size &&
    (0 <= b < length || 1073741824 <= b < 1073741824 + length || 10737418240 <= b < 10737418240 + length ||
     107374182400 <= b < 107374182400 + length || 1073741824000 <= b < 1073741824000 + length)
  }

  lemma {:induction false} LabelledIff(b: int, size: int, length: int)
    requires b < size
    ensures Targeted(b, size, length, |POSITIONS|) <==> Labelled(b, size, length)
  {
    assert POSITIONS[0] == 0 && POSITIONS[1] == 1073741824 && POSITIONS[2] == 10737418240;
    assert POSITIONS[3] == 107374182400 && POSITIONS[4] == 1073741824000;
  }

  /** What a call of Delete may turn the bytes of a device into. */
  ghost predicate Wiped(before: seq<Byte>, after: seq<Byte>, length: int, ok: bool) {
    && |after| == |before|
    && forall b | 0 <= b < |before| ::
         var zero := Labelled(b, |before|, length);
         if ok then after[b] == (if zero then 0 else before[b])
         else after[b] == before[b] || (zero && after[b] == 0)
  }

  /** No label can be read: every targeted byte is zero. */
  ghost predicate Clean(bytes: seq<Byte>, length: int) {
    forall b | 0 <= b < |bytes| && Labelled(b, |bytes|, length) :: bytes[b] == 0
  }

  lemma WipedIsClean(before: seq<Byte>, after: seq<Byte>, length: int)
    requires Wiped(before, after, length, true)
    ensures Clean(after, length)
  {
  }

  /** Opening the device at a path, deleting, and what its bytes are then. */
  method DeleteAt(before: seq<Byte>, blockSize: nat, count: nat, opens: bool, faults: set<nat>)
      returns (ok: bool, after: seq<Byte>)
    requires |before| + blockSize <= MAX_INT64 && count <= MAX_UINT64
    ensures Wiped(before, after, blockSize * count, ok)
    ensures opens && faults == {} ==> ok
    ensures !opens ==> !ok && after == before
  {
    if !opens { return false, before; }
    var data := new Byte[|before|](i requires 0 <= i < |before| => before[i]);
    var device := new Device(data, faults);
    assert forall b | 0 <= b < |before| :: data[b] == before[b];
    ok := device.Delete(blockSize, count);
    after := data[..];
  }

  /** An open block device: its bytes and the file cursor. */
  class Device {
    const data: array<Byte>
    const faults: set<nat>
    var cursor: nat
    var calls: nat

    constructor (data: array<Byte>, faults: set<nat>)
      ensures this.data == data && this.faults == faults && cursor == 0 && calls == 0
    {
      this.data, this.faults := data, faults;
      cursor, calls := 0, 0;
    }

    /** One system call; it fails if it is among the faults. */
    method Call() returns (works: bool)
      modifies this`calls
      ensures calls == old(calls) + 1 && (works <==> old(calls) !in faults)
    {
      works := calls !in faults;
      calls := calls + 1;
    }

    method SeekEnd() returns (size: Option<int>)
      modifies this`cursor, this`calls
      ensures size.Some? ==> size.value == data.Length == cursor
      ensures calls == old(calls) + 1 && (size.Some? <==> old(calls) !in faults)
    {
      var works := Call();
      if !works { return None; }
      cursor := data.Length;
      return Some(cursor);
    }

    method SeekStart(position: nat) returns (ok: bool)
      modifies this`cursor, this`calls
      ensures ok ==> cursor == position
      ensures calls == old(calls) + 1 && (ok <==> old(calls) !in faults)
    {
      var works := Call();
      if works { cursor := position; }
      return works;
    }

    /** Writes n zero bytes at the cursor. A write that fails may have written a part. */
    method WriteZeros(n: nat) returns (ok: bool)
      requires cursor + n <= data.Length
      modifies this`cursor, this`calls, data
      ensures old(cursor) <= cursor <= old(cursor) + n && (ok ==> cursor == old(cursor) + n)
      ensures calls == old(calls) + 1 && (ok <==> old(calls) !in faults)
      ensures forall b | 0 <= b < data.Length ::
                data[b] == if old(cursor) <= b < cursor then 0 else old(data[b])
    {
      ok := Call();
      var limit: nat := *;
      var start := cursor;
      while cursor < start + n && (ok || cursor < limit)
        invariant start <= cursor <= start + n && calls == old(calls) + 1
        invariant forall b | 0 <= b < data.Length :: data[b] == if start <= b < cursor then 0 else old(data[b])
      {
        data[cursor] := 0;
        cursor := cursor + 1;
      }
    }

    /** The blocks after one label position, the last one clipped at the end of the device. */
    method FillAt(position: nat, size: int, blockSize: nat, count: nat) returns (ok: bool)
      requires size == data.Length && position < size && cursor == position
      requires size + blockSize <= MAX_INT64 && count <= MAX_UINT64
      modifies this`cursor, this`calls, data
      ensures old(calls) <= calls && (ok <==> NoFault(faults, old(calls), calls))
      ensures forall b | 0 <= b < size ::
                || data[b] == old(data[b])
                || (position <= b < position + Span(blockSize, count) && data[b] == 0)
      ensures ok ==> forall b | position <= b < position + Span(blockSize, count) && b < size :: data[b] == 0
    {
      var i := 0;
      ghost var done := 0;
      while i < count
        invariant 0 <= i <= count && done == Span(blockSize, i) <= Span(blockSize, count)
        invariant position + done < size + blockSize || done == 0
        invariant cursor == (if position + done <= size then position + done else size)
        invariant old(calls) <= calls && NoFault(faults, old(calls), calls)
        invariant forall b | 0 <= b < size :: data[b] == if position <= b < cursor then 0 else old(data[b])
      {
        var from, to := BlockOffsets(position, size, blockSize, i, done);
        SpanGrows(blockSize, i + 1, count);
        if size <= from { break; }
        ok := WriteClipped(from, to, size, blockSize);
        if !ok { return false; }
        i, done := i + 1, done + blockSize;
      }
      return true;
    }

    /** One block, cut off at the end of the device; the cursor has to stand at its start. */
    method WriteClipped(from: nat, to: int, size: int, blockSize: nat) returns (ok: bool)
      requires cursor == from < size == data.Length && to == from + blockSize
      modifies this`cursor, this`calls, data
      ensures calls == old(calls) + 1 && (ok <==> old(calls) !in faults)
      ensures from <= cursor && cursor <= to && cursor <= size && (ok ==> cursor == if to <= size then to else size)
      ensures forall b | 0 <= b < data.Length :: data[b] == if from <= b < cursor then 0 else old(data[b])
    {
      var length := blockSize;
      if size <= to {
        length := size - from;
      }
      ok := WriteZeros(length);
    }

    /** Start and end of block i, in int64 arithmetic. */
    method BlockOffsets(position: nat, size: int, blockSize: nat, i: nat, ghost done: nat)
        returns (from: int, to: int)
      requires position < size && size + blockSize <= MAX_INT64 && i < MAX_UINT64 && done == Span(blockSize, i)
      requires position + done < size + blockSize || done == 0
      ensures from == position + done
      ensures from < size ==> to == from + blockSize
    {
      SpanIsProduct(blockSize, i);
      Offsets(position, size, blockSize, i);
      from := Int64(position + Int64(Int64(i) * blockSize));
      to := Int64(position + Int64(Int64(i + 1) * blockSize));
    }

    /** Success wipes exactly the targeted bytes; failure wipes no others. */
    method Delete(blockSize: nat, count: nat) returns (ok: bool)
      requires data.Length + blockSize <= MAX_INT64 && count <= MAX_UINT64
      modifies this`cursor, this`calls, data
      ensures old(calls) < calls && (ok <==> NoFault(faults, old(calls), calls))
      ensures ok ==> forall b | 0 <= b < data.Length ::
                data[b] == if Labelled(b, data.Length, blockSize * count) then 0 else old(data[b])
      ensures !ok ==> forall b | 0 <= b < data.Length ::
                data[b] == old(data[b]) ||
                (data[b] == 0 && Labelled(b, data.Length, blockSize * count))
    {
      forall b | 0 <= b < data.Length
        ensures Targeted(b, data.Length, blockSize * count, |POSITIONS|) <==>
                  Labelled(b, data.Length, blockSize * count)
      {
        LabelledIff(b, data.Length, blockSize * count);
      }
      var fileSize := SeekEnd();
      if fileSize.None? { return false; }
      var size := fileSize.value;
      ghost var length := blockSize * count;
      for n := 0 to |POSITIONS|
        invariant old(calls) < calls && NoFault(faults, old(calls), calls)
        invariant forall b | 0 <= b < size ::
                    data[b] == if Targeted(b, size, length, n) then 0 else old(data[b])
      {
        var position := POSITIONS[n];
        if position >= size {
          LaterPositionsOutside(size, length, n);
          break;
        }
        ok := SeekStart(position);
        if !ok {
          assert forall b | 0 <= b < size && Targeted(b, size, length, n) :: Targeted(b, size, length, |POSITIONS|);
          return false;
        }
        label before:
        ok := FillAt(position, size, blockSize, count);
        SpanIsProduct(blockSize, count);
        NextPosition(size, length, n);
        if !ok {
          assert forall b | 0 <= b < size && Targeted(b, size, length, n + 1) :: Targeted(b, size, length, |POSITIONS|);
          return false;
        }
      }
      ok := Call();
    }
  }

  /** The number of bytes in n blocks. */
  ghost function Span(blockSize: nat, n: nat): nat {
    if n == 0 then 0 else Span(blockSize, n - 1) + blockSize
  }

  lemma {:induction false} SpanIsProduct(blockSize: nat, n: nat)
    ensures Span(blockSize, n) == blockSize * n
  {
    if n == 0 {
    } else {
      SpanIsProduct(blockSize, n - 1);
    }
  }

  lemma {:induction false} SpanGrows(blockSize: nat, i: nat, n: nat)
    requires i <= n
    ensures Span(blockSize, i) <= Span(blockSize, n)
  {
    if i == n {
    } else {
      SpanGrows(blockSize, i, n - 1);
    }
  }

  lemma Grows(blockSize: nat, i: nat, count: nat)
    requires i < count
    ensures blockSize * (i + 1) == blockSize * i + blockSize <= blockSize * count
  {
    assert blockSize * count == blockSize * (i + 1) + blockSize * (count - i - 1);
  }

  /** No offset that is used overflows, because each block starts inside the device. */
  lemma Offsets(position: nat, size: int, blockSize: nat, i: nat)
    requires position < size && size + blockSize <= MAX_INT64 && i < MAX_UINT64
    requires position + blockSize * i < size + blockSize || blockSize * i == 0
    ensures Int64(position + Int64(Int64(i) * blockSize)) == position + blockSize * i
    ensures position + blockSize * i < size ==>
              Int64(position + Int64(Int64(i + 1) * blockSize)) == position + blockSize * i + blockSize
  {
    var done := blockSize * i;
    OffsetExact(position, blockSize, i, done);
    Grows(blockSize, i, i + 1);
    if position + done < size {
      OffsetExact(position, blockSize, i + 1, done + blockSize);
    }
  }

  lemma OffsetExact(position: nat, blockSize: nat, i: nat, product: nat)
    requires product == blockSize * i && position + product <= MAX_INT64
    ensures Int64(position + Int64(Int64(i) * blockSize)) == position + product
  {
    ProductExact(blockSize, i, product);
    Int64Exact(position + product);
  }

  lemma ProductExact(blockSize: nat, i: nat, product: nat)
    requires product == blockSize * i <= MAX_INT64
    ensures Int64(Int64(i) * blockSize) == product
  {
    if blockSize == 0 {
      assert Int64(i) * blockSize == 0;
    } else {
      AtMostProduct(blockSize, i);
      Int64Exact(i);
    }
    Int64Exact(product);
  }

  lemma AtMostProduct(blockSize: nat, i: nat)
    requires blockSize > 0
    ensures i <= blockSize * i
  {
    assert blockSize * i == i + (blockSize - 1) * i;
  }

  /** Positions ascend, so the first one outside the device ends the search. */
  lemma LaterPositionsOutside(size: int, length: int, n: nat)
    requires n < |POSITIONS| && POSITIONS[n] >= size
    ensures forall b :: Targeted(b, size, length, n) <==> Targeted(b, size, length, |POSITIONS|)
  {
    assert forall k | n <= k < |POSITIONS| :: POSITIONS[n] <= POSITIONS[k];
  }

  lemma NextPosition(size: int, length: int, n: nat)
    requires n < |POSITIONS| && POSITIONS[n] < size
    ensures forall b :: Targeted(b, size, length, n + 1) <==>
              Targeted(b, size, length, n) || POSITIONS[n] <= b < POSITIONS[n] + length
  {
  }
}
