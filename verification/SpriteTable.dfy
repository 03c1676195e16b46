/** OAM and the flat sprite index the emulator updates in place. */
module SpriteTable {
  import opened Bytes
  import opened SpriteIndex
  import opened SpriteLookup

  class Sprites {
    const oam: array<byte>
    const hash: array<int>
    ghost var rows: seq<seq<int>>

    ghost function Table(): SpriteIndex.Table
      reads this, oam
    {
      SpriteIndex.Table(oam[..], rows)
    }

    ghost predicate Valid()
      reads this, oam, hash
    {
      Consistent(Table()) && Represents(hash[..], rows)
    }

    constructor ()
      ensures Valid() && fresh(oam) && fresh(hash)
      ensures Table() == Initial()
    {
      oam := new byte[OAM_BYTES](_ => 0);
      hash := new int[CELLS](_ => NULL);
      rows := seq(ROWS, _ => []);
      new;
      assert Table() == Initial();
    }

    /** First loop of the rehash: delete the entry of `a` from a row, shifting the rest down. */
    method Unfile(start: nat, a: int, ghost row: seq<int>)
      requires Scans(hash[..], start, row)
      modifies hash
      ensures a !in row ==> hash[..] == old(hash[..])
      ensures forall k | 0 <= k < |row| && row[k] == a && (forall i | 0 <= i < k :: row[i] != a) ::
                forall c | 0 <= c < hash.Length ::
                  hash[c] == if start + k <= c < start + |row| then old(hash[c + 1]) else old(hash[c])
    {
      ghost var k := |row|;
      if a in row {
        k := FirstPosition(row, a);
      }
      var obj := start;
      var found := false;
      while hash[obj] != NULL
        invariant start <= obj <= start + |row|
        invariant found <==> k < obj - start
        invariant forall c | 0 <= c < hash.Length ::
                    hash[c] == if start + k <= c < obj then old(hash[c + 1]) else old(hash[c])
        decreases start + |row| - obj
      {
        assert old(hash[obj]) == row[obj - start];
        if hash[obj] == a || found {
          found := true;
          hash[obj] := hash[obj + 1];
        }
        obj := obj + 1;
      }
      assert obj == start + |row|;
    }

    /** Second loop of the rehash: append `a` at the end of a row. */
    method File(start: nat, a: int, ghost row: seq<int>)
      requires Scans(hash[..], start, row)
      modifies hash
      ensures hash[..] == old(hash[..])[start + |row| := a]
    {
      var obj := start;
      while hash[obj] != NULL
        invariant start <= obj <= start + |row|
        decreases start + |row| - obj
      {
        obj := obj + 1;
      }
      hash[obj] := a;
    }

    /** The sprite at `a` is about to get another bucket: refile it. */
    method Rehash(a: int, newY: byte)
      requires Valid() && IsSprite(a) && Bucket(oam[a]) != Bucket(newY)
      modifies this, hash
      ensures rows == Refiled(old(Table()), a, newY)
      ensures Represents(hash[..], rows)
    {
      var b, b' := oam[a] / 16, newY / 16;
      ghost var h, row := hash[..], rows[b];
      ghost var shrunk := rows[b := Without(row, a)];
      ScanStops(h, Table(), b);
      ScanStops(h, Table(), b');
      RoomToAppend(Table(), a, b');
      Unfile(40 * b, a, row);
      if a in row {
        ghost var k := FirstPosition(row, a);
        WithoutAt(row, a, k);
        UnfiledCells(h, hash[..], rows, b, k);
      } else {
        WithoutAbsent(row, a);
      }
      assert Represents(hash[..], shrunk);
      RowScans(hash[..], shrunk, b');
      FiledCells(hash[..], shrunk, b', a);
      File(40 * b', a, shrunk[b']);
      rows := shrunk[b' := shrunk[b'] + [a]];
    }

    /** The OAM branch of the PPU's write: refile when the bucket changes, then store. */
    method WriteOam(off: int, value: byte)
      requires Valid() && 0 <= off < OAM_END
      modifies this, oam, hash
      ensures Valid()
      ensures Table() == SpriteIndex.WriteOam(old(Table()), off, value)
    {
      WriteKeepsConsistent(Table(), off, value);
      if off % 4 == 0 && oam[off] / 16 != value / 16 {
        Rehash(off, value);
      }
      oam[off] := value;
    }

    /** The sprites at a pixel, at most ten, written to `objs`; `tall` selects 8x16 sprites. */
    method GetObjsAtXy(x: nat, y: nat, tall: bool, objs: array<int>) returns (num: nat)
      requires Valid() && x < 160 && y <= 144
      requires objs.Length == LIMIT && objs != hash
      modifies objs
      ensures num <= LIMIT
      ensures objs[..num] == Lookup(Table(), x, y, if tall then 16 else 8)
    {
      num := 0;
      var size := if tall then 16 else 8;
      ghost var t := Table();
      for i := 0 to 2
        invariant num <= LIMIT && objs[..num] == Take(WindowTo(t, x, y, size, i), LIMIT)
      {
        num := ScanWindowRow(i, x, y, size, objs, num);
      }
      WindowInTwo(t, x, y, size);
    }

    /** One turn of the outer loop of the lookup: row y / 16 + i. */
    method ScanWindowRow(i: nat, x: nat, y: nat, size: nat, objs: array<int>, num0: nat) returns (num: nat)
      requires Valid() && x < 160 && y <= 144 && i < 2 && size <= 16
      requires objs.Length == LIMIT && objs != hash
      requires num0 <= LIMIT && objs[..num0] == Take(WindowTo(Table(), x, y, size, i), LIMIT)
      modifies objs
      ensures num <= LIMIT && objs[..num] == Take(WindowTo(old(Table()), x, y, size, i + 1), LIMIT)
    {
      ghost var t, b := Table(), y / 16 + i;
      RowSprites(t, b);
      ScanStops(hash[..], t, b);
      assert (y + i * 16) / 16 == b;
      ghost var all;
      num, all := ScanRow((y + i * 16) / 16, x, y, size, objs, num0, WindowTo(t, x, y, size, i), t.rows[b]);
    }

    /** The inner loop of the lookup: collect the hits of one row. */
    method ScanRow(b: nat, x: nat, y: nat, size: nat, objs: array<int>, num0: nat,
                   ghost done: seq<int>, ghost row: seq<int>)
      returns (num: nat, ghost all: seq<int>)
      requires oam.Length == OAM_BYTES && x < 160 && y <= 144 && size <= 16
      requires Scans(hash[..], 40 * b, row) && AllSprites(row)
      requires objs.Length == LIMIT && objs != hash
      requires num0 <= LIMIT && objs[..num0] == Take(done, LIMIT)
      modifies objs
      ensures num <= LIMIT && objs[..num] == Take(all, LIMIT)
      ensures all == done + Hits(oam[..], row, x, y, size)
    {
      hide Minus32, Covers;
      num := num0;
      var obj := 40 * b;
      ghost var i := 0;
      all := done;
      while hash[obj] != NULL && num < 10
        invariant 0 <= i <= |row| && obj == 40 * b + i
        invariant num <= LIMIT
        invariant all == done + Hits(oam[..], row[..i], x, y, size)
        invariant objs[..num] == Take(all, LIMIT)
        decreases |row| - i
      {
        var a := hash[obj];
        HitsSnoc(oam[..], row, i, x, y, size);
        UnsignedBoxTest(oam[..], a, x, y, size);
        if Minus32(y + 16, oam[a]) < size && Minus32(x + 8, oam[a + 1]) < 8 {
          objs[num] := a;
          num := num + 1;
          all := all + [a];
        }
        obj := obj + 1;
        i := i + 1;
      }
      HitsPrefix(oam[..], row, i, x, y, size);
      assert row[..|row|] == row;
      all := done + Hits(oam[..], row, x, y, size);
    }
  }

  lemma RowScans(h: seq<int>, rows: seq<seq<int>>, b: nat)
    requires Represents(h, rows) && b < 16 && |rows[b]| < WIDTH && NULL !in rows[b]
    ensures Scans(h, 40 * b, rows[b])
  {
    forall c | 40 * b <= c <= 40 * b + |rows[b]|
      ensures h[c] == Cell(rows, c)
      ensures c < 40 * b + |rows[b]| ==> h[c] == rows[b][c - 40 * b] && h[c] in rows[b]
    {
    }
  }

  /** The row a sprite moves to still has a free cell, since the sprite is not in it. */
  lemma RoomToAppend(t: SpriteIndex.Table, a: int, b: nat)
    requires Consistent(t) && IsSprite(a) && b < 16 && Bucket(t.oam[a]) != b
    ensures |t.rows[b]| < WIDTH
    ensures NULL !in t.rows[b]
  {
    var r := t.rows[b];
    var s := r + [a];
    assert a !in r;
    assert !IsSprite(NULL);
    DistinctConcat(r, [a]);
    SpritesFit(s);
  }
}
