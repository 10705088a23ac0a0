/** The universal Mach-O table check (src/core/preflight.cpp:12-17, 31-52). */
module FatMachO {
  import opened Common
  import opened Bits
  import opened ByteNumbers

  const MAX_SLICES: int := 64

  /** `read`: zero when the run leaves the data, otherwise its number. */
  method Read(d: seq<u8>, offset: nat, width: nat, le: bool) returns (value: nat)
    ensures offset + width > |d| ==> value == 0
    ensures offset + width <= |d| ==> value == Number(d[offset..offset + width], le)
  {
    if offset > |d| || width > |d| - offset { return 0; }
    value := 0;
    NothingPlaced(le, width);
    assert d[offset..offset] == [];
    for i := 0 to width
      invariant value == Placed(d[offset..offset + i], le, width)
    {
      hide Placed, Pow256, Or;
      PlaceNext(d, offset, i, le, width);
      value := Or(value, d[offset + i] as int * Pow256(if le then i else width - 1 - i));
    }
    AllPlaced(d[offset..offset + width], le);
  }

  /** The value after the first bytes have been shifted to their final positions. */
  function Placed(bytes: seq<u8>, le: bool, width: nat): nat
    requires |bytes| <= width
  {
    Number(bytes, le) * (if le then 1 else Pow256(width - |bytes|))
  }

  lemma NothingPlaced(le: bool, width: nat)
    ensures Placed([], le, width) == 0
  {
  }

  lemma AllPlaced(bytes: seq<u8>, le: bool)
    ensures Placed(bytes, le, |bytes|) == Number(bytes, le)
  {
  }

  /** The next byte, shifted to its final position and or-ed in, meets no bit that is set. */
  lemma PlaceByte(bytes: seq<u8>, b: u8, le: bool, width: nat)
    requires |bytes| < width
    ensures var place := b as int * Pow256(if le then |bytes| else width - 1 - |bytes|);
            Placed(bytes + [b], le, width) == Placed(bytes, le, width) + place == Or(Placed(bytes, le, width), place)
  {
    hide Or, Pow2;
    if le {
      NumberAppend(bytes, b);
      NumberBound(bytes, le);
      ByteWeight(|bytes|);
      OrIsSum(Number(bytes, le), b, 8 * |bytes|);
    } else {
      PlaceLower(bytes, b, width - 1 - |bytes|);
    }
  }

  lemma PlaceNext(d: seq<u8>, o: nat, i: nat, le: bool, width: nat)
    requires i < width && o + width <= |d|
    ensures var place := d[o + i] as int * Pow256(if le then i else width - 1 - i);
            Placed(d[o..o + i + 1], le, width) == Or(Placed(d[o..o + i], le, width), place)
  {
    hide Placed, Pow256, Or;
    PlaceByte(d[o..o + i], d[o + i], le, width);
    assert d[o..o + i + 1] == d[o..o + i] + [d[o + i]];
  }

  lemma PlaceLower(bytes: seq<u8>, b: u8, places: nat)
    ensures var before, place := Number(bytes, false) * Pow256(places + 1), b as int * Pow256(places);
            Number(bytes + [b], false) * Pow256(places) == before + place == Or(before, place)
  {
    hide Or, Pow2, Pow256;
    var n := Number(bytes, false);
    assert (bytes + [b])[..|bytes|] == bytes;
    NextPower(places);
    Distribute(n, b, Pow256(places));
    BelowNext(b, Pow256(places));
    ByteWeight(places + 1);
    OrIsSum(b as int * Pow256(places), n, 8 * (places + 1));
  }

  lemma BelowNext(b: u8, p: nat)
    requires p >= 1
    ensures b as int * p < 256 * p
  {
  }

  lemma Distribute(n: int, b: int, p: int)
    ensures (256 * n + b) * p == n * (256 * p) + b * p
  {
  }

  datatype Slice = Slice(cpu: nat, subtype: nat, offset: nat, size: nat, align: nat, reserved: nat)

  function Stride(fat64: bool): nat { if fat64 then 32 else 20 }

  function Wide(fat64: bool): nat { if fat64 then 8 else 4 }

  function Field(d: seq<u8>, at: nat, width: nat, le: bool): nat
    requires at + width <= |d|
  {
    Number(d[at..at + width], le)
  }

  /** One row of the table as its bytes say. */
  function Row(d: seq<u8>, p: nat, le: bool, fat64: bool): Slice
    requires p + Stride(fat64) <= |d|
  {
    Slice(Field(d, p, 4, le), Field(d, p + 4, 4, le), Field(d, p + 8, Wide(fat64), le), Field(d, p + 8 + Wide(fat64), Wide(fat64), le),
          Field(d, p + 8 + 2 * Wide(fat64), 4, le), if fat64 then Field(d, p + 28, 4, le) else 0)
  }

  function TableRow(d: seq<u8>, i: nat, le: bool, fat64: bool): Slice
    requires 8 + (i + 1) * Stride(fat64) <= |d|
  {
    Row(d, 8 + i * Stride(fat64), le, fat64)
  }

  /** A row that lies behind the table, inside the file, large enough for a header, aligned. */
  ghost predicate GoodSlice(s: Slice, end: nat, fileSize: u64) {
    s.cpu != 0 && s.align <= 31 && s.reserved == 0 && end <= s.offset && s.size >= 28 && s.offset + s.size <= fileSize &&
    s.offset % Pow2(s.align) == 0
  }

  /** Two rows for different machines whose byte ranges do not meet. */
  ghost predicate Apart(a: Slice, b: Slice) {
    (a.cpu != b.cpu || a.subtype != b.subtype) && (a.offset + a.size <= b.offset || b.offset + b.size <= a.offset)
  }

  ghost predicate GoodSlices(rows: seq<Slice>, end: nat, fileSize: u64) {
    (forall i :: 0 <= i < |rows| ==> GoodSlice(rows[i], end, fileSize)) &&
    forall j, i :: 0 <= j < i < |rows| ==> Apart(rows[j], rows[i])
  }

  ghost predicate InSlice(p: nat, s: Slice) { s.offset <= p < s.offset + s.size }

  /** Rows are apart exactly when they name different machines and share no byte. */
  lemma ApartSharesNoByte(a: Slice, b: Slice)
    requires a.size > 0 && b.size > 0
    ensures Apart(a, b) <==> (a.cpu, a.subtype) != (b.cpu, b.subtype) && !exists p :: InSlice(p, a) && InSlice(p, b)
  {
    if a.offset < b.offset + b.size && b.offset < a.offset + a.size {
      var p := Max(a.offset, b.offset);
      assert InSlice(p, a) && InSlice(p, b);
    }
  }

  /** Every byte of a good row lies in the file, behind the table. */
  lemma GoodSliceInFile(s: Slice, end: nat, fileSize: u64, p: nat)
    requires GoodSlice(s, end, fileSize) && InSlice(p, s)
    ensures end <= p < fileSize
  {
  }

  /** The table's rows, when its header and length are acceptable. */
  ghost predicate HasTable(d: seq<u8>, rows: seq<Slice>, le: bool, fat64: bool) {
    |d| >= 8 && 1 <= |rows| <= 64 && Field(d, 4, 4, le) == |rows| && 8 + |rows| * Stride(fat64) <= |d| &&
    RowsAre(d, rows, le, fat64)
  }

  ghost predicate RowsAre(d: seq<u8>, rows: seq<Slice>, le: bool, fat64: bool) {
    forall i :: 0 <= i < |rows| ==> 8 + (i + 1) * Stride(fat64) <= |d| && rows[i] == TableRow(d, i, le, fat64)
  }

  method ReadRow(d: seq<u8>, i: nat, le: bool, fat64: bool) returns (s: Slice)
    requires 8 + (i + 1) * Stride(fat64) <= |d|
    ensures s == TableRow(d, i, le, fat64)
  {
    hide Number;
    var p := 8 + i * Stride(fat64);
    var cpu := Read(d, p, 4, le);
    var subtype := Read(d, p + 4, 4, le);
    var offset := Read(d, p + 8, Wide(fat64), le);
    var size := Read(d, if fat64 then p + 16 else p + 12, Wide(fat64), le);
    var align := Read(d, if fat64 then p + 24 else p + 16, 4, le);
    var reserved := 0;
    if fat64 { reserved := Read(d, p + 28, 4, le); }
    s := Slice(cpu, subtype, offset, size, align, reserved);
  }

  /** One row against the rows before it. */
  method CheckRow(d: seq<u8>, i: nat, fileSize: u64, le: bool, fat64: bool, before: seq<Slice>, end: nat)
    returns (ok: bool, s: Slice)
    requires 8 + (i + 1) * Stride(fat64) <= |d|
    requires forall j :: 0 <= j < |before| ==> GoodSlice(before[j], end, fileSize)
    ensures s == TableRow(d, i, le, fat64)
    ensures ok <==> GoodSlice(s, end, fileSize) && forall j :: 0 <= j < |before| ==> Apart(before[j], s)
  {
    s := ReadRow(d, i, le, fat64);
    hide TableRow;
    if s.cpu == 0 || s.align > 31 || s.reserved != 0 || s.offset < end || s.offset > fileSize || s.size < 28 || s.size > fileSize - s.offset {
      return false, s;
    }
    if s.offset % Pow2(s.align) != 0 { return false, s; }
    var j := 0;
    while j < |before|
      invariant j <= |before|
      invariant forall k :: 0 <= k < j ==> Apart(before[k], s)
    {
      var t := before[j];
      if (t.cpu == s.cpu && t.subtype == s.subtype) || (s.offset < t.offset + t.size && t.offset < s.offset + s.size) {
        assert !Apart(before[j], s);
        return false, s;
      }
      j := j + 1;
    }
    return true, s;
  }

  /** The check accepts exactly the tables whose rows are good and pairwise apart. */
  method CheckFatMachO(d: seq<u8>, fileSize: u64, le: bool, fat64: bool) returns (ok: bool, ghost rows: seq<Slice>)
    ensures ok ==> HasTable(d, rows, le, fat64) && GoodSlices(rows, 8 + |rows| * Stride(fat64), fileSize)
    ensures !ok ==> forall table :: HasTable(d, table, le, fat64) ==> !GoodSlices(table, 8 + |table| * Stride(fat64), fileSize)
  {
    rows := [];
    if |d| < 8 { return false, rows; }
    var count := Read(d, 4, 4, le);
    if count == 0 || count > MAX_SLICES { return false, rows; }
    var end := 8 + count * Stride(fat64);
    if end > |d| { return false, rows; }
    var seen: seq<Slice> := [];
    for i := 0 to count
      invariant |seen| == i && GoodSlices(seen, end, fileSize) && RowsAre(d, seen, le, fat64)
    {
      hide GoodSlice, Apart, TableRow, RowsAre;
      RowFits(i, count, fat64);
      var good, s := CheckRow(d, i, fileSize, le, fat64, seen, end);
      if !good {
        BadRow(d, i, fileSize, le, fat64, seen, s, count);
        return false, seen;
      }
      MoreRows(d, seen, s, le, fat64, end, fileSize);
      seen := seen + [s];
    }
    return true, seen;
  }

  lemma RowFits(i: nat, count: nat, fat64: bool)
    requires i < count
    ensures (i + 1) * Stride(fat64) <= count * Stride(fat64)
  {
  }

  lemma MoreRows(d: seq<u8>, seen: seq<Slice>, s: Slice, le: bool, fat64: bool, end: nat, fileSize: u64)
    requires RowsAre(d, seen, le, fat64) && GoodSlices(seen, end, fileSize)
    requires 8 + (|seen| + 1) * Stride(fat64) <= |d| && s == TableRow(d, |seen|, le, fat64)
    requires GoodSlice(s, end, fileSize) && forall j :: 0 <= j < |seen| ==> Apart(seen[j], s)
    ensures RowsAre(d, seen + [s], le, fat64) && GoodSlices(seen + [s], end, fileSize)
  {
    hide GoodSlice, Apart, TableRow;
  }

  lemma BadRow(d: seq<u8>, i: nat, fileSize: u64, le: bool, fat64: bool, seen: seq<Slice>, s: Slice, count: nat)
    requires i < count && |seen| == i && 8 + count * Stride(fat64) <= |d| && Field(d, 4, 4, le) == count
    requires 8 + (i + 1) * Stride(fat64) <= |d| && s == TableRow(d, i, le, fat64)
    requires RowsAre(d, seen, le, fat64)
    requires !(GoodSlice(s, 8 + count * Stride(fat64), fileSize) && forall j :: 0 <= j < i ==> Apart(seen[j], s))
    ensures forall table :: HasTable(d, table, le, fat64) ==> !GoodSlices(table, 8 + |table| * Stride(fat64), fileSize)
  {
    hide GoodSlice, Apart, TableRow, Field;
    forall table | HasTable(d, table, le, fat64) ensures !GoodSlices(table, 8 + |table| * Stride(fat64), fileSize) {
      assert table[i] == s && forall j :: 0 <= j < i ==> table[j] == seen[j];
    }
  }

  /** The bytes of a row, and of a whole table with its header. */
  function RowBytes(s: Slice, le: bool, fat64: bool): (r: seq<u8>)
    ensures |r| == Stride(fat64)
  {
    Bytes(s.cpu, 4, le) + Bytes(s.subtype, 4, le) + Bytes(s.offset, Wide(fat64), le) + Bytes(s.size, Wide(fat64), le) +
    Bytes(s.align, 4, le) + (if fat64 then Bytes(s.reserved, 4, le) else [])
  }

  function RowsBytes(rows: seq<Slice>, le: bool, fat64: bool): (r: seq<u8>)
    ensures |r| == |rows| * Stride(fat64)
  {
    if rows == [] then [] else RowsBytes(rows[..|rows| - 1], le, fat64) + RowBytes(rows[|rows| - 1], le, fat64)
  }

  ghost predicate FitsFields(s: Slice, fat64: bool) {
    s.cpu < Pow256(4) && s.subtype < Pow256(4) && s.offset < Pow256(Wide(fat64)) && s.size < Pow256(Wide(fat64)) &&
    s.align < Pow256(4) && s.reserved < Pow256(4) && (!fat64 ==> s.reserved == 0)
  }

  /** A number written somewhere is read back there. */
  lemma FieldRoundTrip(before: seq<u8>, n: nat, width: nat, after: seq<u8>, le: bool)
    requires n < Pow256(width)
    ensures Field(before + Bytes(n, width, le) + after, |before|, width, le) == n
  {
    BytesRoundTrip(n, width, le);
    assert (before + Bytes(n, width, le) + after)[|before|..|before| + width] == Bytes(n, width, le);
  }

  /** Reading a written row gives the row back, wherever it stands. */
  lemma RowRoundTrip(before: seq<u8>, s: Slice, after: seq<u8>, le: bool, fat64: bool)
    requires FitsFields(s, fat64)
    ensures Row(before + RowBytes(s, le, fat64) + after, |before|, le, fat64) == s
  {
    hide Bytes, Field, Pow256;
    var w := Wide(fat64);
    var d := before + RowBytes(s, le, fat64) + after;
    var a, b, c, e, f := Bytes(s.cpu, 4, le), Bytes(s.subtype, 4, le), Bytes(s.offset, w, le), Bytes(s.size, w, le), Bytes(s.align, 4, le);
    var g := if fat64 then Bytes(s.reserved, 4, le) else [];
    FieldRoundTrip(before, s.cpu, 4, b + c + e + f + g + after, le);
    assert d == before + a + (b + c + e + f + g + after);
    FieldRoundTrip(before + a, s.subtype, 4, c + e + f + g + after, le);
    assert d == (before + a) + b + (c + e + f + g + after);
    FieldRoundTrip(before + a + b, s.offset, w, e + f + g + after, le);
    assert d == (before + a + b) + c + (e + f + g + after);
    FieldRoundTrip(before + a + b + c, s.size, w, f + g + after, le);
    assert d == (before + a + b + c) + e + (f + g + after);
    FieldRoundTrip(before + a + b + c + e, s.align, 4, g + after, le);
    assert d == (before + a + b + c + e) + f + (g + after);
    if fat64 {
      FieldRoundTrip(before + a + b + c + e + f, s.reserved, 4, after, le);
      assert d == (before + a + b + c + e + f) + g + after;
    }
  }

  /** A table as it is written: four magic bytes, the count, the rows. */
  function TableBytes(magic: seq<u8>, rows: seq<Slice>, le: bool, fat64: bool): seq<u8> {
    magic + Bytes(|rows|, 4, le) + RowsBytes(rows, le, fat64)
  }

  lemma {:induction false} RowsSplit(rows: seq<Slice>, i: nat, le: bool, fat64: bool) returns (tail: seq<u8>)
    requires i < |rows|
    ensures RowsBytes(rows, le, fat64) == RowsBytes(rows[..i], le, fat64) + RowBytes(rows[i], le, fat64) + tail
    decreases |rows|
  {
    hide RowBytes, Stride;
    var n := |rows| - 1;
    if i == n {
      tail := [];
    } else {
      tail := RowsSplit(rows[..n], i, le, fat64);
      assert rows[..n][..i] == rows[..i];
      tail := tail + RowBytes(rows[n], le, fat64);
    }
  }

  /** Every table of one to 64 rows, written out and followed by anything, is read back row by row. */
  lemma TableRoundTrip(magic: seq<u8>, rows: seq<Slice>, rest: seq<u8>, le: bool, fat64: bool)
    requires |magic| == 4 && 1 <= |rows| <= 64 && forall i :: 0 <= i < |rows| ==> FitsFields(rows[i], fat64)
    ensures HasTable(TableBytes(magic, rows, le, fat64) + rest, rows, le, fat64)
  {
    hide FitsFields, Row, RowBytes, RowsBytes, Bytes, Number;
    var d, count := TableBytes(magic, rows, le, fat64) + rest, Bytes(|rows|, 4, le);
    CountRoundTrip(|rows|, le);
    assert d[4..8] == count;
    forall i | 0 <= i < |rows| ensures 8 + (i + 1) * Stride(fat64) <= |d| && rows[i] == TableRow(d, i, le, fat64) {
      RowFits(i, |rows|, fat64);
      var tail := RowsSplit(rows, i, le, fat64);
      var before := magic + count + RowsBytes(rows[..i], le, fat64);
      assert d == before + RowBytes(rows[i], le, fat64) + (tail + rest);
      RowRoundTrip(before, rows[i], tail + rest, le, fat64);
    }
  }

  lemma CountRoundTrip(n: nat, le: bool)
    requires n <= 64
    ensures Number(Bytes(n, 4, le), le) == n
  {
    assert Pow256(4) >= Pow256(1) by { assert Pow256(2) == 256 * Pow256(1) && Pow256(3) == 256 * Pow256(2); }
    assert Pow256(1) == 256 * Pow256(0);
    BytesRoundTrip(n, 4, le);
  }
}
