/** Sorted cell sequences: the contents of a B+tree read from left to right.  An ordered map
    is the meaning of such a sequence. */
module Cells {
  import opened Pages

  ghost predicate Sorted(cells: seq<Cell>) {
    forall i, j :: 0 <= i < j < |cells| ==> cells[i].key < cells[j].key
  }

  ghost predicate Within(cells: seq<Cell>, lo: int, hi: int) {
    forall c <- cells :: lo <= c.key < hi
  }

  /** The ordered map a cell sequence stands for. */
  ghost function ToMap(cells: seq<Cell>): map<Key, Bytes> {
    if cells == [] then map[]
    else ToMap(cells[..|cells| - 1])[cells[|cells| - 1].key := cells[|cells| - 1].value]
  }

  /** Insert, or overwrite when the key is already there. */
  function Put(cells: seq<Cell>, key: Key, value: Bytes): seq<Cell> {
    if cells == [] || key < cells[0].key then [Cell(key, value)] + cells
    else if cells[0].key == key then [Cell(key, value)] + cells[1..]
    else [cells[0]] + Put(cells[1..], key, value)
  }

  /** Remove the first cell that holds the key. */
  function Del(cells: seq<Cell>, key: Key): seq<Cell> {
    if cells == [] then []
    else if cells[0].key == key then cells[1..]
    else [cells[0]] + Del(cells[1..], key)
  }

  function Lookup(cells: seq<Cell>, key: Key): Option<Bytes> {
    if cells == [] then None
    else if cells[0].key == key then Some(cells[0].value)
    else Lookup(cells[1..], key)
  }

  /** The cells whose keys lie between two inclusive bounds. */
  function InRange(cells: seq<Cell>, low: Key, high: Key): seq<Cell> {
    if cells == [] then []
    else if low <= cells[0].key <= high then [cells[0]] + InRange(cells[1..], low, high)
    else InRange(cells[1..], low, high)
  }

  // ---------- meaning as an ordered map ----------

  lemma {:induction false} ToMapHas(cells: seq<Cell>)
    ensures forall k :: k in ToMap(cells) <==> exists c <- cells :: c.key == k
    ensures Sorted(cells) ==> forall c <- cells :: c.key in ToMap(cells) && ToMap(cells)[c.key] == c.value
  {
    if cells != [] {
      var n := |cells| - 1;
      ToMapHas(cells[..n]);
      assert cells == cells[..n] + [cells[n]];
      assert Sorted(cells) ==> Sorted(cells[..n]);
      forall k | k in ToMap(cells)
        ensures exists c <- cells :: c.key == k
      {
        if k == cells[n].key {
          assert cells[n] in cells;
        } else {
          assert k in ToMap(cells[..n]);
          var c :| c in cells[..n] && c.key == k;
          assert c in cells;
        }
      }
      if Sorted(cells) {
        forall c | c in cells
          ensures c.key in ToMap(cells) && ToMap(cells)[c.key] == c.value
        {
          if c != cells[n] {
            assert c in cells[..n];
            var i :| 0 <= i < n && cells[i] == c;
            assert cells[i].key < cells[n].key;
          }
        }
      }
    }
  }

  /** A sorted cell sequence is determined by its map entries. */
  lemma ToMapExact(cells: seq<Cell>, m: map<Key, Bytes>)
    requires Sorted(cells)
    requires forall c <- cells :: c.key in m && m[c.key] == c.value
    requires forall k <- m :: exists c <- cells :: c.key == k
    ensures ToMap(cells) == m
  {
    ToMapHas(cells);
    forall k | k in m
      ensures k in ToMap(cells) && ToMap(cells)[k] == m[k]
    {
      var c :| c in cells && c.key == k;
    }
    forall k | k in ToMap(cells)
      ensures k in m
    {
      var c :| c in cells && c.key == k;
    }
  }

  lemma SortedTail(cells: seq<Cell>)
    requires Sorted(cells) && cells != []
    ensures Sorted(cells[1..])
    ensures forall c <- cells[1..] :: cells[0].key < c.key
    ensures forall c :: c in cells <==> c == cells[0] || c in cells[1..]
  {
    assert cells == [cells[0]] + cells[1..];
  }

  lemma SortedCons(x: Cell, rest: seq<Cell>)
    requires Sorted(rest) && forall c <- rest :: x.key < c.key
    ensures Sorted([x] + rest)
  {
    var all := [x] + rest;
    forall i, j | 0 <= i < j < |all|
      ensures all[i].key < all[j].key
    {
      assert all[j] == rest[j - 1] && all[j] in rest;
      assert i > 0 ==> all[i] == rest[i - 1];
    }
  }

  lemma {:induction false} PutMembers(cells: seq<Cell>, key: Key, value: Bytes)
    requires Sorted(cells)
    ensures forall c :: c in Put(cells, key, value) <==> c == Cell(key, value) || (c in cells && c.key != key)
    ensures Sorted(Put(cells, key, value))
  {
    if cells == [] {
    } else {
      SortedTail(cells);
      if key < cells[0].key {
        SortedCons(Cell(key, value), cells);
      } else if cells[0].key == key {
        SortedCons(Cell(key, value), cells[1..]);
      } else {
        PutMembers(cells[1..], key, value);
        SortedCons(cells[0], Put(cells[1..], key, value));
      }
    }
  }

  lemma PutMap(cells: seq<Cell>, key: Key, value: Bytes)
    requires Sorted(cells)
    ensures Sorted(Put(cells, key, value))
    ensures ToMap(Put(cells, key, value)) == ToMap(cells)[key := value]
  {
    PutMembers(cells, key, value);
    ToMapHas(cells);
    var m := ToMap(cells)[key := value];
    var put := Put(cells, key, value);
    forall k | k in m
      ensures exists c <- put :: c.key == k
    {
      if k == key {
        assert Cell(key, value) in put;
      } else {
        var c :| c in cells && c.key == k;
        assert c in put;
      }
    }
    ToMapExact(put, m);
  }

  lemma {:induction false} DelMembers(cells: seq<Cell>, key: Key)
    requires Sorted(cells)
    ensures forall c :: c in Del(cells, key) <==> c in cells && c.key != key
    ensures Sorted(Del(cells, key))
  {
    if cells == [] {
    } else {
      SortedTail(cells);
      if cells[0].key != key {
        DelMembers(cells[1..], key);
        SortedCons(cells[0], Del(cells[1..], key));
      }
    }
  }

  lemma DelMap(cells: seq<Cell>, key: Key)
    requires Sorted(cells)
    ensures Sorted(Del(cells, key))
    ensures ToMap(Del(cells, key)) == ToMap(cells) - {key}
  {
    DelMembers(cells, key);
    ToMapHas(cells);
    var m := ToMap(cells) - {key};
    forall k | k in m
      ensures exists c <- Del(cells, key) :: c.key == k
    {
      var c :| c in cells && c.key == k;
      assert c in Del(cells, key);
    }
    ToMapExact(Del(cells, key), m);
  }

  lemma {:induction false} LookupMembers(cells: seq<Cell>, key: Key)
    requires Sorted(cells)
    ensures Lookup(cells, key).None? <==> forall c <- cells :: c.key != key
    ensures Lookup(cells, key).Some? ==> Cell(key, Lookup(cells, key).value) in cells
  {
    if cells == [] {
    } else {
      SortedTail(cells);
      LookupMembers(cells[1..], key);
    }
  }

  function MapLookup(m: map<Key, Bytes>, key: Key): Option<Bytes> {
    if key in m then Some(m[key]) else None
  }

  lemma LookupMap(cells: seq<Cell>, key: Key)
    requires Sorted(cells)
    ensures Lookup(cells, key) == MapLookup(ToMap(cells), key)
  {
    LookupMembers(cells, key);
    ToMapHas(cells);
  }

  /** `rows` lists exactly the entries of `m` whose keys lie in the closed range, each once, in increasing order. */
  ghost predicate IsRange(rows: seq<Cell>, m: map<Key, Bytes>, low: Key, high: Key) {
    && Sorted(rows)
    && (forall c <- rows :: low <= c.key <= high && c.key in m && m[c.key] == c.value)
    && (forall k <- m :: low <= k <= high ==> Cell(k, m[k]) in rows)
  }

  lemma {:induction false} InRangeMembers(cells: seq<Cell>, low: Key, high: Key)
    requires Sorted(cells)
    ensures forall c :: c in InRange(cells, low, high) <==> c in cells && low <= c.key <= high
    ensures Sorted(InRange(cells, low, high))
  {
    if cells == [] {
    } else {
      SortedTail(cells);
      InRangeMembers(cells[1..], low, high);
      SortedCons(cells[0], InRange(cells[1..], low, high));
    }
  }

  lemma InRangeMap(cells: seq<Cell>, low: Key, high: Key)
    requires Sorted(cells)
    ensures IsRange(InRange(cells, low, high), ToMap(cells), low, high)
  {
    InRangeMembers(cells, low, high);
    ToMapHas(cells);
    forall k | k in ToMap(cells) && low <= k <= high
      ensures Cell(k, ToMap(cells)[k]) in InRange(cells, low, high)
    {
      var c :| c in cells && c.key == k;
      assert c == Cell(k, ToMap(cells)[k]);
    }
  }

  // ---------- concatenation ----------

  lemma SortedAppend(a: seq<Cell>, b: seq<Cell>, lo: int, mid: int, hi: int)
    requires Sorted(a) && Sorted(b) && Within(a, lo, mid) && Within(b, mid, hi) && lo <= mid <= hi
    ensures Sorted(a + b) && Within(a + b, lo, hi)
  {
    forall i, j | 0 <= i < j < |a + b|
      ensures (a + b)[i].key < (a + b)[j].key
    {
      if i < |a| <= j {
        assert (a + b)[i] in a && (a + b)[j] in b;
      }
    }
  }

  lemma {:induction false} PutLeft(a: seq<Cell>, b: seq<Cell>, key: Key, value: Bytes)
    requires forall c <- a :: c.key < key
    ensures Put(a + b, key, value) == a + Put(b, key, value)
  {
    if a == [] {
      assert a + b == b;
    } else {
      assert a[0] in a;
      assert (a + b)[1..] == a[1..] + b;
      PutLeft(a[1..], b, key, value);
    }
  }

  lemma {:induction false} PutRight(b: seq<Cell>, c: seq<Cell>, key: Key, value: Bytes)
    requires forall d <- c :: key < d.key
    ensures Put(b + c, key, value) == Put(b, key, value) + c
  {
    if b == [] {
      assert b + c == c;
      assert c != [] ==> c[0] in c;
    } else if b[0].key < key {
      assert (b + c)[1..] == b[1..] + c;
      PutRight(b[1..], c, key, value);
    } else {
      assert (b + c)[1..] == b[1..] + c;
    }
  }

  lemma PutMiddle(a: seq<Cell>, b: seq<Cell>, c: seq<Cell>, key: Key, value: Bytes)
    requires forall d <- a :: d.key < key
    requires forall d <- c :: key < d.key
    ensures Put(a + b + c, key, value) == a + Put(b, key, value) + c
  {
    assert a + b + c == a + (b + c);
    PutLeft(a, b + c, key, value);
    PutRight(b, c, key, value);
  }

  lemma {:induction false} DelSkip(a: seq<Cell>, b: seq<Cell>, key: Key)
    requires forall c <- a :: c.key != key
    ensures Del(a + b, key) == a + Del(b, key)
    ensures Lookup(a + b, key) == Lookup(b, key)
  {
    if a == [] {
      assert a + b == b;
    } else {
      assert a[0] in a;
      assert (a + b)[1..] == a[1..] + b;
      DelSkip(a[1..], b, key);
    }
  }

  lemma {:induction false} DelStop(b: seq<Cell>, c: seq<Cell>, key: Key)
    requires forall d <- c :: d.key != key
    ensures Del(b + c, key) == Del(b, key) + c
    ensures Lookup(b + c, key) == Lookup(b, key)
  {
    if b == [] {
      assert b + c == c;
      DelSkip(c, [], key);
      assert c + [] == c;
    } else {
      assert (b + c)[1..] == b[1..] + c;
      if b[0].key != key {
        DelStop(b[1..], c, key);
      }
    }
  }

  lemma DelMiddle(a: seq<Cell>, b: seq<Cell>, c: seq<Cell>, key: Key)
    requires forall d <- a :: d.key != key
    requires forall d <- c :: d.key != key
    ensures Del(a + b + c, key) == a + Del(b, key) + c
    ensures Lookup(a + b + c, key) == Lookup(b, key)
  {
    assert a + b + c == a + (b + c);
    DelSkip(a, b + c, key);
    DelStop(b, c, key);
  }

  lemma {:induction false} InRangeAppend(a: seq<Cell>, b: seq<Cell>, low: Key, high: Key)
    ensures InRange(a + b, low, high) == InRange(a, low, high) + InRange(b, low, high)
  {
    if a == [] {
      assert a + b == b;
    } else {
      assert (a + b)[1..] == a[1..] + b;
      InRangeAppend(a[1..], b, low, high);
    }
  }

  lemma {:induction false} InRangeNone(a: seq<Cell>, low: Key, high: Key)
    requires forall c <- a :: c.key < low || high < c.key
    ensures InRange(a, low, high) == []
  {
    if a != [] {
      assert a[0] in a;
      InRangeNone(a[1..], low, high);
    }
  }
}
