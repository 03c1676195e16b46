/** Which sprites the two-row window finds at a pixel, and that it agrees with a scan of OAM. */
module SpriteLookup {
  import opened Bytes
  import opened SpriteIndex

  const LIMIT: nat := 10

  /** Sprite `a` covers the pixel: its box of 8 x size starts at (X - 8, Y - 16). */
  predicate Covers(oam: seq<byte>, a: int, x: nat, y: nat, size: nat)
    requires |oam| == OAM_BYTES && IsSprite(a)
  {
    oam[a] - 16 <= y < oam[a] - 16 + size && oam[a + 1] - 8 <= x < oam[a + 1]
  }

  predicate AllSprites(row: seq<int>) { forall i | 0 <= i < |row| :: IsSprite(row[i]) }

  /** The entries of a row that cover the pixel, in row order. */
  function Hits(oam: seq<byte>, row: seq<int>, x: nat, y: nat, size: nat): (hits: seq<int>)
    requires |oam| == OAM_BYTES && AllSprites(row)
    ensures |hits| <= |row|
  {
    if row == [] then []
    else
      var a := row[|row| - 1];
      Hits(oam, row[..|row| - 1], x, y, size) + if Covers(oam, a, x, y, size) then [a] else []
  }

  function Take(s: seq<int>, n: nat): seq<int> { if |s| <= n then s else s[..n] }

  lemma RowSprites(t: Table, b: nat)
    requires Consistent(t) && b < ROWS
    ensures AllSprites(t.rows[b])
  {
    forall i | 0 <= i < |t.rows[b]|
      ensures IsSprite(t.rows[b][i])
    {
      var a := t.rows[b][i];
      assert a in t.rows[b];
    }
  }

  /** All hits of the window: row y / 16, then the row below it. */
  function Window(t: Table, x: nat, y: nat, size: nat): (hits: seq<int>)
    requires Consistent(t) && y <= 144
  {
    RowSprites(t, y / 16);
    RowSprites(t, y / 16 + 1);
    Hits(t.oam, t.rows[y / 16], x, y, size) + Hits(t.oam, t.rows[y / 16 + 1], x, y, size)
  }

  /** The hits of the first n rows of the window. */
  function WindowTo(t: Table, x: nat, y: nat, size: nat, n: nat): (hits: seq<int>)
    requires Consistent(t) && y <= 144 && n <= 2
  {
    if n == 0 then []
    else
      var b := y / 16 + n - 1;
      RowSprites(t, b);
      WindowTo(t, x, y, size, n - 1) + Hits(t.oam, t.rows[b], x, y, size)
  }

  lemma WindowInTwo(t: Table, x: nat, y: nat, size: nat)
    requires Consistent(t) && y <= 144
    ensures WindowTo(t, x, y, size, 2) == Window(t, x, y, size)
  {
    RowSprites(t, y / 16);
    assert WindowTo(t, x, y, size, 1) == Hits(t.oam, t.rows[y / 16], x, y, size);
  }

  /** What the lookup returns: the first ten hits of the window. */
  function Lookup(t: Table, x: nat, y: nat, size: nat): seq<int>
    requires Consistent(t) && y <= 144
  {
    Take(Window(t, x, y, size), LIMIT)
  }

  /** The linear scan of the 40 sprites. */
  function Naive(oam: seq<byte>, x: nat, y: nat, size: nat): set<int>
    requires |oam| == OAM_BYTES
  {
    set a | 0 <= a < OAM_END && IsSprite(a) && Covers(oam, a, x, y, size)
  }

  function Found(t: Table, x: nat, y: nat, size: nat): set<int>
    requires Shape(t)
  {
    set a | a in Naive(t.oam, x, y, size) && IsSprite(a) && Indexed(t, a)
  }

  function Elements(s: seq<int>): set<int> { set a | a in s }

  lemma {:induction false} HitsMembers(oam: seq<byte>, row: seq<int>, x: nat, y: nat, size: nat)
    requires |oam| == OAM_BYTES && AllSprites(row)
    ensures forall a :: a in Hits(oam, row, x, y, size) <==> a in row && IsSprite(a) && Covers(oam, a, x, y, size)
    ensures Distinct(row) ==> Distinct(Hits(oam, row, x, y, size))
  {
    if row != [] {
      var front := row[..|row| - 1];
      HitsMembers(oam, front, x, y, size);
      assert row == front + [row[|row| - 1]];
      if Distinct(row) {
        assert Distinct(front);
        assert row[|row| - 1] !in front;
      }
    }
  }

  lemma HitsSnoc(oam: seq<byte>, row: seq<int>, i: nat, x: nat, y: nat, size: nat)
    requires |oam| == OAM_BYTES && AllSprites(row) && i < |row|
    ensures Hits(oam, row[..i + 1], x, y, size) ==
            Hits(oam, row[..i], x, y, size) + if Covers(oam, row[i], x, y, size) then [row[i]] else []
  {
    assert row[..i + 1][..i] == row[..i];
  }

  /** The unsigned differences of the lookup, wrapping below zero, decide the box test. */
  lemma UnsignedBoxTest(oam: seq<byte>, a: int, x: nat, y: nat, size: nat)
    requires |oam| == OAM_BYTES && IsSprite(a) && x < 160 && y <= 144 && size <= 16
    ensures Covers(oam, a, x, y, size) <==> Minus32(y + 16, oam[a]) < size && Minus32(x + 8, oam[a + 1]) < 8
  {
  }

  lemma {:induction false} HitsPrefix(oam: seq<byte>, row: seq<int>, i: nat, x: nat, y: nat, size: nat)
    requires |oam| == OAM_BYTES && AllSprites(row) && i <= |row|
    ensures Hits(oam, row[..i], x, y, size) <= Hits(oam, row, x, y, size)
    decreases |row|
  {
    if i < |row| {
      HitsPrefix(oam, row[..|row| - 1], i, x, y, size);
      assert row[..|row| - 1][..i] == row[..i];
    } else {
      assert row[..i] == row;
    }
  }

  lemma {:induction false} ElementsCount(s: seq<int>)
    requires Distinct(s)
    ensures |Elements(s)| == |s|
  {
    if s != [] {
      var front, last := s[..|s| - 1], s[|s| - 1];
      ElementsCount(front);
      assert s == front + [last];
      assert last !in front;
      assert Elements(s) == Elements(front) + {last};
    }
  }

  /** The rows y / 16 and y / 16 + 1 are the only ones that can hold a covering sprite. */
  lemma WindowIsWideEnough(y: nat, spriteY: byte, size: nat)
    requires size == 8 || size == 16
    requires spriteY - 16 <= y < spriteY - 16 + size
    ensures Bucket(spriteY) == y / 16 || Bucket(spriteY) == y / 16 + 1
  {
  }

  lemma WindowMembers(t: Table, x: nat, y: nat, size: nat)
    requires Consistent(t) && y <= 144 && (size == 8 || size == 16)
    ensures Distinct(Window(t, x, y, size))
    ensures Elements(Window(t, x, y, size)) == Found(t, x, y, size)
  {
    var b := y / 16;
    var r, r' := t.rows[b], t.rows[b + 1];
    RowSprites(t, b);
    RowSprites(t, b + 1);
    HitsMembers(t.oam, r, x, y, size);
    HitsMembers(t.oam, r', x, y, size);
    var h, h' := Hits(t.oam, r, x, y, size), Hits(t.oam, r', x, y, size);
    var w := Window(t, x, y, size);
    assert w == h + h';
    forall a | a in h
      ensures a !in h'
    {
      assert a in r && Bucket(t.oam[a]) == b;
    }
    DistinctConcat(h, h');
    forall a
      ensures a in w <==> a in Found(t, x, y, size)
    {
      if a in Found(t, x, y, size) {
        WindowIsWideEnough(y, t.oam[a], size);
      }
    }
  }

  /**
   The lookup returns distinct sprites, each covering the pixel, as many as the smaller of ten
   and the number of indexed sprites that cover it.
   */
  lemma LookupMeaning(t: Table, x: nat, y: nat, size: nat)
    requires Consistent(t) && x < 160 && y <= 144 && (size == 8 || size == 16)
    ensures var r := Lookup(t, x, y, size);
            && Distinct(r)
            && Elements(r) <= Found(t, x, y, size) <= Naive(t.oam, x, y, size)
            && |r| == if |Found(t, x, y, size)| <= 10 then |Found(t, x, y, size)| else 10
  {
    WindowMembers(t, x, y, size);
    ElementsCount(Window(t, x, y, size));
  }

  /** When more are there than are returned, those left out are not filed in an earlier row. */
  lemma LeftOutLater(t: Table, x: nat, y: nat, size: nat, a: int, c: int)
    requires Consistent(t) && x < 160 && y <= 144 && (size == 8 || size == 16)
    requires IsSprite(a) && IsSprite(c)
    requires a in Lookup(t, x, y, size) && c in Found(t, x, y, size) && c !in Lookup(t, x, y, size)
    ensures t.oam[a] / 16 <= t.oam[c] / 16
  {
    var b := y / 16;
    RowSprites(t, b);
    RowSprites(t, b + 1);
    HitsMembers(t.oam, t.rows[b], x, y, size);
    HitsMembers(t.oam, t.rows[b + 1], x, y, size);
    WindowMembers(t, x, y, size);
    var h, w := Hits(t.oam, t.rows[b], x, y, size), Window(t, x, y, size);
    assert c in Elements(w);
    if |h| >= 10 {
      assert forall i | 0 <= i < 10 :: w[i] == h[i];
      assert a in h;
    } else {
      forall i | 0 <= i < |h|
        ensures h[i] in Lookup(t, x, y, size)
      {
        assert Take(w, LIMIT)[i] == h[i];
      }
    }
  }

  /**
   When at most ten sprites cover the pixel, the lookup finds all of them exactly if every
   covering sprite with Y below 16 has been filed; the others always are.
   */
  lemma LookupIsNaiveScan(t: Table, x: nat, y: nat, size: nat)
    requires Consistent(t) && x < 160 && y <= 144 && (size == 8 || size == 16)
    requires |Naive(t.oam, x, y, size)| <= 10
    ensures Elements(Lookup(t, x, y, size)) == Naive(t.oam, x, y, size)
        <==> forall a | a in Naive(t.oam, x, y, size) && 1 <= t.oam[a] <= 15 :: Indexed(t, a)
  {
    var naive, found := Naive(t.oam, x, y, size), Found(t, x, y, size);
    WindowMembers(t, x, y, size);
    ElementsCount(Window(t, x, y, size));
    SubsetSize(found, naive);
    assert Elements(Lookup(t, x, y, size)) == found;
    forall a | a in naive
      ensures t.oam[a] >= 1
      ensures t.oam[a] >= 16 ==> Indexed(t, a)
    {
    }
  }

  lemma SubsetSize(s: set<int>, u: set<int>)
    requires s <= u
    ensures |s| <= |u|
  {
    assert u == s + (u - s);
  }

  /** A sprite that has never left Y 0..15 covers the pixel, and the lookup does not find it. */
  lemma LowSpriteMissed()
    ensures var t := Run([OamWrite(0, 8), OamWrite(1, 20)]);
            && Consistent(t)
            && 0 in Naive(t.oam, 12, 0, 16) && Lookup(t, 12, 0, 16) == []
  {
    var ws := [OamWrite(0, 8), OamWrite(1, 20)];
    RunIndex(ws);
    assert ws[..1] == [OamWrite(0, 8)] && ws[..1][..0] == [];
    var t1 := WriteOam(Initial(), 0, 8);
    assert Run(ws[..1]) == t1 && t1.rows == Initial().rows;
    var t := Run(ws);
    assert t == WriteOam(t1, 1, 20);
    assert t.rows[0] == [] && t.rows[1] == [];
  }
}
