/**
 The sprite index on values: OAM, and for each bucket of Y coordinates (Y >> 4) the list of
 the sprites filed under it. `Represents` ties such a table to the flat array of 17 rows of
 40 pointers the emulator keeps; a sprite is named by the OAM offset its pointer leads to.
 */
module SpriteIndex {
  import opened Bytes

  const NULL: int := -1
  const ROWS: nat := 17
  const WIDTH: nat := 40
  const CELLS: nat := 680
  const OAM_BYTES: nat := 0x100
  const OAM_END: nat := 0xa0

  datatype Table = Table(oam: seq<byte>, rows: seq<seq<int>>)
  datatype OamWrite = OamWrite(off: int, value: byte)

  predicate IsSprite(a: int) { 0 <= a < OAM_END && a % 4 == 0 }

  function Bucket(y: byte): (b: nat)
    ensures b < 16
  {
    y / 16
  }

  predicate Distinct(s: seq<int>) { forall i, j | 0 <= i < j < |s| :: s[i] != s[j] }

  predicate Shape(t: Table) { |t.oam| == OAM_BYTES && |t.rows| == ROWS }

  /** What every reachable table satisfies. */
  ghost predicate Consistent(t: Table) {
    && Shape(t)
    && (forall b, a | 0 <= b < ROWS && a in t.rows[b] :: IsSprite(a) && Bucket(t.oam[a]) == b)
    && (forall b | 0 <= b < ROWS :: Distinct(t.rows[b]))
    && (forall a | IsSprite(a) && t.oam[a] >= 16 :: a in t.rows[Bucket(t.oam[a])])
  }

  predicate Indexed(t: Table, a: int)
    requires Shape(t) && IsSprite(a)
  {
    a in t.rows[Bucket(t.oam[a])]
  }

  /** The row without the first occurrence of `a`. */
  function Without(row: seq<int>, a: int): seq<int> {
    if row == [] then [] else if row[0] == a then row[1..] else [row[0]] + Without(row[1..], a)
  }

  /** Sprite `a` moved from the row of its present Y to the end of the row of its new one. */
  function Refiled(t: Table, a: int, y: byte): seq<seq<int>>
    requires Shape(t) && IsSprite(a)
  {
    var old_ := Bucket(t.oam[a]);
    var shrunk := t.rows[old_ := Without(t.rows[old_], a)];
    shrunk[Bucket(y) := shrunk[Bucket(y)] + [a]]
  }

  /** One store into OAM: a Y byte that changes bucket refiles its sprite first. */
  function WriteOam(t: Table, off: int, v: byte): Table
    requires Shape(t) && 0 <= off < OAM_END
  {
    var rows := if off % 4 == 0 && Bucket(t.oam[off]) != Bucket(v) then Refiled(t, off, v) else t.rows;
    Table(t.oam[off := v], rows)
  }

  /** Zeroed OAM and an empty index, as at program start. */
  function Initial(): Table {
    Table(seq(OAM_BYTES, _ => 0), seq(ROWS, _ => []))
  }

  predicate InOam(ws: seq<OamWrite>) { forall w | w in ws :: 0 <= w.off < OAM_END }

  function Run(ws: seq<OamWrite>): (t: Table)
    requires InOam(ws)
    ensures Shape(t)
  {
    if ws == [] then Initial()
    else WriteOam(Run(ws[..|ws| - 1]), ws[|ws| - 1].off, ws[|ws| - 1].value)
  }

  // ---------- removal of one entry ----------

  lemma {:induction false} WithoutAt(row: seq<int>, a: int, k: nat)
    requires k < |row| && row[k] == a && forall i | 0 <= i < k :: row[i] != a
    ensures Without(row, a) == row[..k] + row[k + 1..]
  {
    if row[0] != a {
      assert row[1..][..k - 1] == row[..k][1..];
      WithoutAt(row[1..], a, k - 1);
      assert row[1..][k..] == row[k + 1..];
    }
  }

  lemma {:induction false} WithoutAbsent(row: seq<int>, a: int)
    requires a !in row
    ensures Without(row, a) == row
  {
    if row != [] {
      WithoutAbsent(row[1..], a);
    }
  }

  lemma FirstPosition(row: seq<int>, a: int) returns (k: nat)
    requires a in row
    ensures k < |row| && row[k] == a && forall i | 0 <= i < k :: row[i] != a
  {
    if row[0] == a {
      k := 0;
    } else {
      k := FirstPosition(row[1..], a);
      k := k + 1;
    }
  }

  lemma {:induction false} WithoutMembers(row: seq<int>, a: int)
    requires Distinct(row)
    ensures Distinct(Without(row, a))
    ensures forall x :: x in Without(row, a) <==> x in row && x != a
  {
    if row != [] {
      assert row == [row[0]] + row[1..];
      if row[0] == a {
        assert a !in row[1..];
      } else {
        WithoutMembers(row[1..], a);
        assert row[0] !in row[1..];
      }
    }
  }

  /** A sprite that was in no row is filed at the end of its new one. */
  lemma FiledFirst(t: Table, a: int, y: byte)
    requires Shape(t) && IsSprite(a) && Bucket(t.oam[a]) != Bucket(y) && a !in t.rows[Bucket(t.oam[a])]
    ensures WriteOam(t, a, y) == Table(t.oam[a := y], t.rows[Bucket(y) := t.rows[Bucket(y)] + [a]])
  {
    var b := Bucket(t.oam[a]);
    WithoutAbsent(t.rows[b], a);
    assert t.rows[b := t.rows[b]] == t.rows;
  }

  // ---------- the invariant over all runs ----------

  lemma WriteMembers(t: Table, off: int, v: byte)
    requires Consistent(t) && 0 <= off < OAM_END
    ensures Shape(WriteOam(t, off, v))
    ensures forall b | 0 <= b < ROWS :: Distinct(WriteOam(t, off, v).rows[b])
    ensures forall b, x | 0 <= b < ROWS ::
              x in WriteOam(t, off, v).rows[b] <==>
              if off % 4 == 0 && Bucket(t.oam[off]) != Bucket(v) && x == off then b == Bucket(v)
              else x in t.rows[b]
  {
    var t' := WriteOam(t, off, v);
    if off % 4 == 0 && Bucket(t.oam[off]) != Bucket(v) {
      var old_ := Bucket(t.oam[off]);
      WithoutMembers(t.rows[old_], off);
      forall b, x | 0 <= b < ROWS
        ensures x in t'.rows[b] <==> if x == off then b == Bucket(v) else x in t.rows[b]
      {
      }
    }
  }

  lemma WriteKeepsConsistent(t: Table, off: int, v: byte)
    requires Consistent(t) && 0 <= off < OAM_END
    ensures Consistent(WriteOam(t, off, v))
  {
    WriteMembers(t, off, v);
  }

  /** Some write of the run gave sprite `a` a Y of 16 or more. */
  ghost predicate Recorded(ws: seq<OamWrite>, a: int) {
    exists i | 0 <= i < |ws| :: ws[i].off == a && ws[i].value >= 16
  }

  lemma RecordedSnoc(ws: seq<OamWrite>, a: int)
    requires ws != []
    ensures Recorded(ws, a) <==> Recorded(ws[..|ws| - 1], a) || (ws[|ws| - 1].off == a && ws[|ws| - 1].value >= 16)
  {
    var front := ws[..|ws| - 1];
    if Recorded(front, a) {
      var i :| 0 <= i < |front| && front[i].off == a && front[i].value >= 16;
      assert ws[i] == front[i];
    }
    if Recorded(ws, a) && !(ws[|ws| - 1].off == a && ws[|ws| - 1].value >= 16) {
      var i :| 0 <= i < |ws| && ws[i].off == a && ws[i].value >= 16;
      assert front[i] == ws[i];
    }
  }

  /**
   After any sequence of OAM writes the table is consistent, and who is filed is known exactly:
   row b lists the sprites of bucket b, except that row 0 lists only those which some write
   had put at Y >= 16 before.
   */
  lemma {:induction false} RunIndex(ws: seq<OamWrite>)
    requires InOam(ws)
    ensures Consistent(Run(ws))
    ensures forall a | IsSprite(a) && Run(ws).oam[a] >= 16 :: Recorded(ws, a)
    ensures forall a, b | IsSprite(a) && 0 <= b < ROWS ::
              a in Run(ws).rows[b] <==> Bucket(Run(ws).oam[a]) == b && (b >= 1 || Recorded(ws, a))
  {
    if ws != [] {
      var front, w := ws[..|ws| - 1], ws[|ws| - 1];
      RunIndex(front);
      WriteKeepsConsistent(Run(front), w.off, w.value);
      WriteMembers(Run(front), w.off, w.value);
      forall a | IsSprite(a)
        ensures Recorded(ws, a) <==> Recorded(front, a) || (w.off == a && w.value >= 16)
      {
        RecordedSnoc(ws, a);
      }
    }
  }

  // ---------- capacity: 40 sprites share 17 rows of 40 ----------

  lemma {:induction false} DistinctFits(s: seq<int>, n: nat)
    requires Distinct(s)
    requires forall x | x in s :: 0 <= x < n
    ensures |s| <= n
    decreases n
  {
    if s != [] {
      assert s[0] in s;
      WithoutMembers(s, n - 1);
      DistinctFits(Without(s, n - 1), n - 1);
      if n - 1 in s {
        var k := FirstPosition(s, n - 1);
        WithoutAt(s, n - 1, k);
      } else {
        WithoutAbsent(s, n - 1);
      }
    }
  }

  lemma DistinctConcat(r: seq<int>, r': seq<int>)
    requires Distinct(r) && Distinct(r') && forall a | a in r :: a !in r'
    ensures Distinct(r + r')
  {
    var s := r + r';
    forall i, j | 0 <= i < j < |s|
      ensures s[i] != s[j]
    {
      if i < |r| {
        assert s[i] in r;
        assert j >= |r| ==> s[j] in r';
      } else {
        assert r'[i - |r|] != r'[j - |r|];
      }
    }
  }

  lemma SpritesFit(s: seq<int>)
    requires Distinct(s) && forall a | a in s :: IsSprite(a)
    ensures |s| <= 40
  {
    var q := seq(|s|, i requires 0 <= i < |s| => s[i] / 4);
    forall i, j | 0 <= i < j < |q|
      ensures q[i] != q[j]
    {
      assert s[i] in s && s[j] in s && s[i] != s[j];
    }
    forall x | x in q
      ensures 0 <= x < 40
    {
      var i :| 0 <= i < |q| && q[i] == x;
      assert s[i] in s;
    }
    DistinctFits(q, 40);
  }

  lemma UsedRow(t: Table, b: nat)
    requires Consistent(t) && b < ROWS && t.rows[b] != []
    ensures b < 16
  {
    var a := t.rows[b][0];
    assert a in t.rows[b];
    assert IsSprite(a);
  }

  /** Two rows together never hold more than the 40 sprites: a full row leaves the others empty. */
  lemma RowsShareCapacity(t: Table, b: nat, b': nat)
    requires Consistent(t) && b < ROWS && b' < ROWS && b != b'
    ensures |t.rows[b]| + |t.rows[b']| <= WIDTH
    ensures t.rows[16] == []
  {
    var r, r' := t.rows[b], t.rows[b'];
    forall a | a in r
      ensures a !in r'
    {
      assert IsSprite(a);
      assert Bucket(t.oam[a]) == b;
    }
    DistinctConcat(r, r');
    SpritesFit(r + r');
    if t.rows[16] != [] {
      UsedRow(t, 16);
    }
  }

  // ---------- the flat table of pointers ----------

  function Cell(rows: seq<seq<int>>, k: int): int
    requires |rows| == ROWS && 0 <= k < CELLS
  {
    if k % 40 < |rows[k / 40]| then rows[k / 40][k % 40] else NULL
  }

  ghost predicate Represents(h: seq<int>, rows: seq<seq<int>>) {
    && |h| == CELLS
    && |rows| == ROWS
    && forall k | 0 <= k < CELLS :: h[k] == Cell(rows, k)
  }

  /** The flat scan of `row` from cell `start`: its entries, then NULL. */
  ghost predicate Scans(h: seq<int>, start: nat, row: seq<int>) {
    && start + |row| < |h|
    && (forall c | start <= c < start + |row| :: h[c] == row[c - start] && h[c] != NULL)
    && h[start + |row|] == NULL
  }

  /**
   A scan that starts at row b of the flat table and stops at the first NULL sees exactly the
   row and stays inside the table, even when the row fills its 40 cells and has no terminator
   of its own.
   */
  lemma ScanStops(h: seq<int>, t: Table, b: nat)
    requires Consistent(t) && Represents(h, t.rows) && b < 16
    ensures |t.rows[b]| <= WIDTH && Scans(h, 40 * b, t.rows[b])
  {
    RowsShareCapacity(t, b, b + 1);
    forall c | 40 * b <= c < 40 * b + |t.rows[b]|
      ensures h[c] == t.rows[b][c - 40 * b] && h[c] != NULL
    {
      var a := t.rows[b][c - 40 * b];
      assert a in t.rows[b];
      assert IsSprite(a);
      assert c / 40 == b && c % 40 == c - 40 * b;
      assert h[c] == Cell(t.rows, c);
    }
    var e := 40 * b + |t.rows[b]|;
    assert h[e] == Cell(t.rows, e);
    if |t.rows[b]| == 40 {
      assert e / 40 == b + 1 && e % 40 == 0;
    } else {
      assert e / 40 == b && e % 40 == |t.rows[b]|;
    }
  }

  lemma UnfiledCells(h: seq<int>, h': seq<int>, rows: seq<seq<int>>, b: nat, k: nat)
    requires Represents(h, rows) && b < 16 && Scans(h, 40 * b, rows[b]) && k < |rows[b]|
    requires |rows[b]| <= WIDTH && |h'| == CELLS
    requires forall c {:trigger h'[c]} | 0 <= c < CELLS ::
               h'[c] == if 40 * b + k <= c < 40 * b + |rows[b]| then h[c + 1] else h[c]
    ensures Represents(h', rows[b := rows[b][..k] + rows[b][k + 1..]])
  {
    var row, rows' := rows[b], rows[b := rows[b][..k] + rows[b][k + 1..]];
    forall c | 0 <= c < CELLS
      ensures h'[c] == Cell(rows', c)
    {
      assert h[c] == Cell(rows, c);
      var i := c % 40;
      if c / 40 == b {
        assert c == 40 * b + i;
        if i < |row| - 1 {
          assert h[c + 1] == row[i + 1];
          assert rows'[b][i] == if i < k then row[i] else row[i + 1];
        } else if i == |row| - 1 {
          assert c + 1 == 40 * b + |row|;
          assert h'[c] == h[c + 1];
        } else {
          assert h'[c] == h[c];
        }
      } else {
        assert !(40 * b + k <= c < 40 * b + |row|);
        assert rows'[c / 40] == rows[c / 40];
      }
    }
  }

  lemma FiledCells(h: seq<int>, rows: seq<seq<int>>, b: nat, a: int)
    requires Represents(h, rows) && b < 16 && |rows[b]| < WIDTH
    ensures 40 * b + |rows[b]| < CELLS
    ensures Represents(h[40 * b + |rows[b]| := a], rows[b := rows[b] + [a]])
  {
    var e, rows' := 40 * b + |rows[b]|, rows[b := rows[b] + [a]];
    forall c | 0 <= c < CELLS
      ensures h[e := a][c] == Cell(rows', c)
    {
      assert h[c] == Cell(rows, c);
    }
  }
}
