/** The fixed-width encoding of a row's columns, all but the primary key. */
module RowCodecs {
  import opened Pages
  import opened Query

  const TEXT_CAPACITY: nat := 16

  const HALF: int := 0x8000_0000_0000_0000
  const FULL: int := 0x1_0000_0000_0000_0000

  predicate IsInt64(v: int) {
    -HALF <= v < HALF
  }

  /** What the source's types can hold: 64-bit integers and strings of bytes. */
  predicate Representable(v: Value) {
    if v.IntV? then IsInt64(v.i) else forall c <- v.s :: c as int < 256
  }

  /** The first primary-key column. */
  function PrimaryKeyIndex(columns: seq<ColumnDef>): (r: Option<nat>)
    ensures r.Some? ==> r.value < |columns| && columns[r.value].isPrimaryKey
    ensures r.None? ==> forall c <- columns :: !c.isPrimaryKey
  {
    if columns == [] then None
    else if columns[0].isPrimaryKey then Some(0)
    else
      var rest := PrimaryKeyIndex(columns[1..]);
      if rest.Some? then Some(rest.value + 1) else None
  }

  // ---------- integers ----------

  function Pow256(n: nat): nat {
    if n == 0 then 1 else 256 * Pow256(n - 1)
  }

  /** Little-endian digits in base 256. */
  function LeBytes(u: nat, n: nat): (r: Bytes)
    ensures |r| == n
  {
    if n == 0 then [] else [(u % 256) as Byte] + LeBytes(u / 256, n - 1)
  }

  function LeValue(b: Bytes): nat {
    if b == [] then 0 else b[0] as nat + 256 * LeValue(b[1..])
  }

  lemma {:induction false} LeBack(u: nat, n: nat)
    requires u < Pow256(n)
    ensures LeValue(LeBytes(u, n)) == u
  {
    if n > 0 {
      LeBack(u / 256, n - 1);
    }
  }

  function Unsigned(v: int): nat
    requires IsInt64(v)
  {
    if v < 0 then v + FULL else v
  }

  function Signed(u: nat): int {
    if u >= HALF then u - FULL else u
  }

  // ---------- one column ----------

  function Width(c: ColumnDef): nat {
    if c.ctype.IntegerType? then 8 else TEXT_CAPACITY
  }

  /** The value has the column's type, and a text fits its 15 bytes. */
  predicate Encodable(c: ColumnDef, v: Value) {
    if c.ctype.IntegerType? then v.IntV? else v.TextV? && |v.s| <= TEXT_CAPACITY - 1
  }

  function Zeros(n: nat): (r: Bytes)
    ensures |r| == n && forall k :: 0 <= k < n ==> r[k] == 0
  {
    seq(n, _ => 0)
  }

  function TextOf(b: Bytes): (r: string)
    ensures |r| == |b|
  {
    seq(|b|, k requires 0 <= k < |b| => b[k] as char)
  }

  function ByteOf(c: char): Byte
    requires c as int < 256
  {
    c as int
  }

  function BytesOf(s: string): (r: Bytes)
    requires forall c <- s :: c as int < 256
    ensures |r| == |s|
    ensures forall k :: 0 <= k < |s| ==> r[k] as char == s[k]
  {
    seq(|s|, k requires 0 <= k < |s| => assert s[k] in s; ByteOf(s[k]))
  }

  function ColumnBytes(c: ColumnDef, v: Value): (r: Bytes)
    requires Encodable(c, v) && Representable(v)
    ensures |r| == Width(c)
  {
    if c.ctype.IntegerType? then LeBytes(Unsigned(v.i), 8)
    else [|v.s| as Byte] + BytesOf(v.s) + Zeros(TEXT_CAPACITY - 1 - |v.s|)
  }

  /** What is read back at an offset; a text is cut at the end of the buffer. */
  function ReadColumn(c: ColumnDef, blob: Bytes, offset: nat): Value
    requires offset + Width(c) <= |blob|
  {
    if c.ctype.IntegerType? then IntV(Signed(LeValue(blob[offset..offset + 8])))
    else
      var len := blob[offset] as nat;
      TextV(TextOf(blob[offset + 1..if offset + 1 + len <= |blob| then offset + 1 + len else |blob|]))
  }

  lemma ColumnBack(c: ColumnDef, v: Value, before: Bytes, after: Bytes)
    requires Encodable(c, v) && Representable(v)
    ensures ReadColumn(c, before + ColumnBytes(c, v) + after, |before|) == v
  {
    var blob, w := before + ColumnBytes(c, v) + after, |before|;
    assert blob[w..w + Width(c)] == ColumnBytes(c, v);
    if c.ctype.IntegerType? {
      assert Pow256(8) == FULL;
      LeBack(Unsigned(v.i), 8);
    } else {
      assert blob[w] == ColumnBytes(c, v)[0];
      assert blob[w + 1..w + 1 + |v.s|] == ColumnBytes(c, v)[1..1 + |v.s|] == BytesOf(v.s);
      assert TextOf(BytesOf(v.s)) == v.s;
    }
  }

  // ---------- whole rows ----------

  /** The columns stored in the blob: all but the primary key. */
  predicate Stored(columns: seq<ColumnDef>, i: nat)
    requires i < |columns|
  {
    PrimaryKeyIndex(columns) != Some(i)
  }

  function WidthOf(columns: seq<ColumnDef>, n: nat): nat
    requires n <= |columns|
  {
    if n == 0 then 0 else WidthOf(columns, n - 1) + if Stored(columns, n - 1) then Width(columns[n - 1]) else 0
  }

  function EncodedSize(columns: seq<ColumnDef>): nat {
    WidthOf(columns, |columns|)
  }

  /** The first `n` columns of a row the codec accepts: each stored value of its column's type and short enough. */
  ghost predicate RowEncodable(columns: seq<ColumnDef>, values: seq<Value>, n: nat) {
    && |values| == |columns| && n <= |columns|
    && forall i :: 0 <= i < n && Stored(columns, i) ==> Encodable(columns[i], values[i])
  }

  ghost predicate AllRepresentable(values: seq<Value>) {
    forall v <- values :: Representable(v)
  }

  /** The bytes of the first `n` columns. */
  ghost function RowBytes(columns: seq<ColumnDef>, values: seq<Value>, n: nat): (r: Bytes)
    requires RowEncodable(columns, values, n) && AllRepresentable(values)
    ensures |r| == WidthOf(columns, n)
  {
    if n == 0 then []
    else
      RowBytes(columns, values, n - 1)
      + if Stored(columns, n - 1) then assert values[n - 1] in values; ColumnBytes(columns[n - 1], values[n - 1]) else []
  }

  lemma {:induction false} WidthGrows(columns: seq<ColumnDef>, m: nat, n: nat)
    requires m <= n <= |columns|
    ensures WidthOf(columns, m) <= WidthOf(columns, n)
    decreases n - m
  {
    if m < n {
      WidthGrows(columns, m, n - 1);
    }
  }

  /** However many columns, all but the key take at most 16 bytes each. */
  lemma {:induction false} WidthBound(columns: seq<ColumnDef>, n: nat)
    requires n <= |columns|
    ensures var pk := PrimaryKeyIndex(columns); WidthOf(columns, n) <= 16 * if pk.Some? && pk.value < n then n - 1 else n
  {
    hide PrimaryKeyIndex;
    if n > 0 {
      WidthBound(columns, n - 1);
    }
  }

  lemma RowStep(columns: seq<ColumnDef>, values: seq<Value>, i: nat)
    requires RowEncodable(columns, values, i) && AllRepresentable(values) && i < |columns|
    requires Stored(columns, i) ==> Encodable(columns[i], values[i])
    ensures RowEncodable(columns, values, i + 1) && values[i] in values
    ensures WidthOf(columns, i + 1) == WidthOf(columns, i) + if Stored(columns, i) then Width(columns[i]) else 0
    ensures RowBytes(columns, values, i + 1)
         == RowBytes(columns, values, i) + if Stored(columns, i) then ColumnBytes(columns[i], values[i]) else []
  {
    hide Encodable, Width, ColumnBytes, PrimaryKeyIndex;
  }

  lemma Regroup(a: Bytes, b: Bytes, c: Bytes, d: Bytes)
    ensures a + b + c + d == a + b + (c + d)
  {
  }

  /** Each stored column's bytes stand at the column's offset. */
  lemma {:induction false} RowBytesAt(columns: seq<ColumnDef>, values: seq<Value>, i: nat, n: nat) returns (after: Bytes)
    requires RowEncodable(columns, values, n) && AllRepresentable(values) && i < n && Stored(columns, i)
    ensures values[i] in values
    ensures RowBytes(columns, values, n) == RowBytes(columns, values, i) + ColumnBytes(columns[i], values[i]) + after
    decreases n
  {
    hide RowBytes, ColumnBytes, Encodable, PrimaryKeyIndex;
    RowStep(columns, values, n - 1);
    if n == i + 1 {
      after := [];
      assert RowBytes(columns, values, n) + [] == RowBytes(columns, values, n);
    } else {
      var more := RowBytesAt(columns, values, i, n - 1);
      var last := if Stored(columns, n - 1) then ColumnBytes(columns[n - 1], values[n - 1]) else [];
      after := more + last;
      Regroup(RowBytes(columns, values, i), ColumnBytes(columns[i], values[i]), more, last);
    }
  }

  /** Lay bytes into a buffer. */
  method CopyInto(blob: array<Byte>, offset: nat, bytes: Bytes)
    requires offset + |bytes| <= blob.Length
    modifies blob
    ensures blob[..] == old(blob[..offset]) + bytes + old(blob[offset + |bytes|..])
  {
    var k := 0;
    while k < |bytes|
      invariant k <= |bytes|
      invariant forall j :: 0 <= j < blob.Length ==> blob[j] == if offset <= j < offset + k then bytes[j - offset] else old(blob[j])
    {
      blob[offset + k] := bytes[k];
      k := k + 1;
    }
  }

  lemma ZerosAdd(a: nat, b: nat)
    ensures Zeros(a) + Zeros(b) == Zeros(a + b)
  {
  }

  /** Bytes laid over the zeros that follow `done`. */
  lemma Lay(done: Bytes, m: nat, bytes: Bytes)
    requires |bytes| <= m
    ensures var was := done + Zeros(m);
            was[..|done|] + bytes + was[|done| + |bytes|..] == done + bytes + Zeros(m - |bytes|)
  {
    var was := done + Zeros(m);
    assert was[..|done|] == done;
    assert was[|done| + |bytes|..] == Zeros(m - |bytes|);
  }

  /** One column more, in a buffer otherwise zero. */
  method PutColumn(c: ColumnDef, v: Value, blob: array<Byte>, ghost done: Bytes, offset: nat)
    requires Encodable(c, v) && Representable(v) && offset == |done| && offset + Width(c) <= blob.Length
    requires blob[..] == done + Zeros(blob.Length - offset)
    modifies blob
    ensures blob[..] == done + ColumnBytes(c, v) + Zeros(blob.Length - offset - Width(c))
  {
    hide LeBytes, BytesOf;
    ghost var m := blob.Length - offset;
    if c.ctype.IntegerType? {
      Lay(done, m, LeBytes(Unsigned(v.i), 8));
      CopyInto(blob, offset, LeBytes(Unsigned(v.i), 8));
    } else {
      var len: Byte := |v.s|;
      Lay(done, m, [len]);
      CopyInto(blob, offset, [len]);
      Lay(done + [len], m - 1, BytesOf(v.s));
      CopyInto(blob, offset + 1, BytesOf(v.s));
      ZerosAdd(TEXT_CAPACITY - 1 - |v.s|, m - TEXT_CAPACITY);
      TextLaid(done, len, BytesOf(v.s), TEXT_CAPACITY - 1 - |v.s|, m - TEXT_CAPACITY);
    }
  }

  lemma TextLaid(done: Bytes, len: Byte, text: Bytes, a: nat, b: nat)
    ensures done + [len] + text + Zeros(a + b) == done + ([len] + text + Zeros(a)) + Zeros(b)
  {
    ZerosAdd(a, b);
  }

  /** A row as one blob, column after column; a value of the wrong kind or too long is refused. */
  method Encode(columns: seq<ColumnDef>, values: seq<Value>) returns (r: Result<Bytes>)
    requires AllRepresentable(values)
    ensures r.Ok? <==> RowEncodable(columns, values, |columns|)
    ensures r.Ok? ==> r.value == RowBytes(columns, values, |columns|)
  {
    hide Encodable, Width, WidthOf, RowBytes, ColumnBytes, PrimaryKeyIndex;
    if |values| != |columns| {
      return Err;
    }
    var size := EncodedSize(columns);
    var blob := new Byte[size](_ => 0);
    assert blob[..] == [] + Zeros(size);
    var offset := 0;
    var i := 0;
    NoColumns(columns, values);
    WidthGrows(columns, 0, |columns|);
    while i < |columns|
      invariant i <= |columns| && offset == WidthOf(columns, i) <= size
      invariant RowEncodable(columns, values, i)
      invariant blob[..] == RowBytes(columns, values, i) + Zeros(size - offset)
    {
      WidthGrows(columns, i + 1, |columns|);
      if Stored(columns, i) {
        var c, v := columns[i], values[i];
        assert v in values;
        if !Encodable(c, v) {
          return Err;
        }
        RowStep(columns, values, i);
        PutColumn(c, v, blob, RowBytes(columns, values, i), offset);
        offset := offset + Width(c);
      } else {
        RowStep(columns, values, i);
        assert RowBytes(columns, values, i) + [] == RowBytes(columns, values, i);
      }
      i := i + 1;
    }
    assert Zeros(0) == [] && RowBytes(columns, values, i) + [] == RowBytes(columns, values, i);
    return Ok(blob[..]);
  }

  lemma NoColumns(columns: seq<ColumnDef>, values: seq<Value>)
    requires |values| == |columns| && AllRepresentable(values)
    ensures WidthOf(columns, 0) == 0 && RowBytes(columns, values, 0) == []
  {
  }

  /** The key in its column, every other column read at its offset. */
  ghost predicate Decoded(columns: seq<ColumnDef>, key: int, blob: Bytes, n: nat, values: seq<Value>) {
    && n <= |columns| && n <= |values|
    && forall i :: 0 <= i < n ==> DecodedAt(columns, key, blob, i, values[i])
  }

  ghost predicate DecodedAt(columns: seq<ColumnDef>, key: int, blob: Bytes, i: nat, v: Value)
    requires i < |columns|
  {
    if Stored(columns, i) then
      WidthOf(columns, i) + Width(columns[i]) <= |blob| && v == ReadColumn(columns[i], blob, WidthOf(columns, i))
    else v == IntV(key)
  }

  method Decode(columns: seq<ColumnDef>, key: int, blob: Bytes) returns (values: seq<Value>)
    requires |blob| == EncodedSize(columns)
    ensures |values| == |columns| && Decoded(columns, key, blob, |columns|, values)
  {
    hide DecodedAt, ReadColumn, WidthOf, PrimaryKeyIndex;
    var slots := new Value[|columns|](_ => IntV(0));
    var offset := 0;
    var i := 0;
    WidthZero(columns);
    while i < |columns|
      invariant i <= |columns| && offset == WidthOf(columns, i) <= |blob|
      invariant Decoded(columns, key, blob, i, slots[..])
    {
      WidthStep(columns, i);
      var v := IntV(key);
      if Stored(columns, i) {
        v := ReadColumn(columns[i], blob, offset);
        offset := offset + Width(columns[i]);
      }
      ColumnDecoded(columns, key, blob, i, v);
      ghost var was := slots[..];
      slots[i] := v;
      assert slots[..] == was[i := v];
      i := i + 1;
    }
    return slots[..];
  }

  lemma WidthZero(columns: seq<ColumnDef>)
    ensures WidthOf(columns, 0) == 0
  {
  }

  lemma WidthStep(columns: seq<ColumnDef>, i: nat)
    requires i < |columns|
    ensures WidthOf(columns, i + 1) == WidthOf(columns, i) + if Stored(columns, i) then Width(columns[i]) else 0
    ensures WidthOf(columns, i + 1) <= EncodedSize(columns)
  {
    WidthGrows(columns, i + 1, |columns|);
  }

  lemma ColumnDecoded(columns: seq<ColumnDef>, key: int, blob: Bytes, i: nat, v: Value)
    requires i < |columns| && (Stored(columns, i) ==> WidthOf(columns, i) + Width(columns[i]) <= |blob|)
    requires v == if Stored(columns, i) then ReadColumn(columns[i], blob, WidthOf(columns, i)) else IntV(key)
    ensures DecodedAt(columns, key, blob, i, v)
  {
  }

  /** Decoding an encoded row under its own key gives back the row, for every schema and every accepted row. */
  lemma DecodeUndoesEncode(columns: seq<ColumnDef>, values: seq<Value>, key: int, out: seq<Value>)
    requires RowEncodable(columns, values, |columns|) && AllRepresentable(values)
    requires PrimaryKeyIndex(columns).Some? ==> values[PrimaryKeyIndex(columns).value] == IntV(key)
    requires |out| == |columns| && Decoded(columns, key, RowBytes(columns, values, |columns|), |columns|, out)
    ensures out == values
  {
    forall i | 0 <= i < |columns|
      ensures out[i] == values[i]
    {
      assert DecodedAt(columns, key, RowBytes(columns, values, |columns|), i, out[i]);
      if Stored(columns, i) {
        var after := RowBytesAt(columns, values, i, |columns|);
        ColumnBack(columns[i], values[i], RowBytes(columns, values, i), after);
      }
    }
  }
}
