/** Row filters of PNG (PNG Second Edition, section 9): what an encoder does to an image, byte by byte. */
module PngFilter {
  import opened Arithmetic
  import opened BitStream

  function Abs(a: int): nat {
    if a < 0 then -a else a
  }

  function Paeth(a: Byte, b: Byte, c: Byte): Byte {
    var p := a + b - c;
    var pa, pb, pc := Abs(p - a), Abs(p - b), Abs(p - c);
    if pa <= pb && pa <= pc then a
    else if pb <= pc then b
    else c
  }

  /** Section 9.4: the neighbour nearest to a + b - c, the earlier of a, b, c on a tie. */
  lemma PaethNearest(a: Byte, b: Byte, c: Byte)
    ensures var p, r := a + b - c, Paeth(a, b, c);
      && r in {a, b, c}
      && Abs(p - r) <= Abs(p - a) && Abs(p - r) <= Abs(p - b) && Abs(p - r) <= Abs(p - c)
      && (r != a ==> Abs(p - r) < Abs(p - a))
      && (r != a && r != b ==> Abs(p - r) < Abs(p - b))
  {}

  /** The prediction of a filter type from the bytes to the left, above and above left. */
  function Predict(t: nat, left: Byte, up: Byte, upLeft: Byte): Byte {
    if t == 1 then left
    else if t == 2 then up
    else if t == 3 then (left + up) / 2
    else if t == 4 then Paeth(left, up, upLeft)
    else 0
  }

  /** The byte one pixel to the left, 0 for the first pixel. */
  function Left(row: seq<Byte>, u: nat, bpp: nat): Byte
    requires bpp > 0 && u <= |row|
  {
    if u < bpp then 0 else row[u - bpp]
  }

  function FilterByte(t: nat, bpp: nat, prior: seq<Byte>, row: seq<Byte>, u: nat): Byte
    requires bpp > 0 && u < |row| <= |prior|
  {
    (row[u] - Predict(t, Left(row, u, bpp), prior[u], Left(prior, u, bpp))) % 256
  }

  function FilterRow(t: nat, bpp: nat, prior: seq<Byte>, row: seq<Byte>): (r: seq<Byte>)
    requires bpp > 0 && |row| <= |prior|
    ensures |r| == |row| && forall u :: 0 <= u < |row| ==> r[u] == FilterByte(t, bpp, prior, row, u)
  {
    seq<Byte>(|row|, u requires 0 <= u < |row| => FilterByte(t, bpp, prior, row, u))
  }

  /** The five types: nothing, the byte one pixel to the left, the byte above, their average rounded down, the Paeth
      predictor; each is taken from the byte, modulo 256. */
  lemma {:induction false} FilterTypes(t: nat, bpp: nat, prior: seq<Byte>, row: seq<Byte>, u: nat)
    requires bpp > 0 && u < |row| <= |prior|
    ensures var r := FilterRow(t, bpp, prior, row)[u];
      var left: Byte := if u < bpp then 0 else row[u - bpp];
      var corner: Byte := if u < bpp then 0 else prior[u - bpp];
      && (t == 0 ==> r == row[u])
      && (t == 1 ==> (r + left) % 256 == row[u])
      && (t == 2 ==> (r + prior[u]) % 256 == row[u])
      && (t == 3 ==> var a := (row[u] - r) % 256; 2 * a <= left + prior[u] <= 2 * a + 1)
      && (t == 4 ==> (r + Paeth(left, prior[u], corner)) % 256 == row[u])
  {
    var r := FilterRow(t, bpp, prior, row)[u];
    assert r == FilterByte(t, bpp, prior, row, u);
    var a: nat := Predict(t, Left(row, u, bpp), prior[u], Left(prior, u, bpp));
    assert (r + a) % 256 == row[u];
    assert a == (row[u] - r) % 256;
  }

  /** The row above the first one. */
  function Zeros(n: nat): (r: seq<Byte>)
    ensures |r| == n && forall u :: 0 <= u < n ==> r[u] == 0
  {
    seq<Byte>(n, u => 0)
  }

  predicate Rows(img: seq<seq<Byte>>, n: nat) {
    forall j :: 0 <= j < |img| ==> |img[j]| == n
  }

  function Above(img: seq<seq<Byte>>, j: nat, n: nat): seq<Byte>
    requires j <= |img|
  {
    if j == 0 then Zeros(n) else img[j - 1]
  }

  /** An image of rows of `n` bytes, each row with its filter type in front. */
  function Encode(img: seq<seq<Byte>>, types: seq<Byte>, bpp: nat, n: nat): seq<Byte>
    requires bpp > 0 && |types| == |img| && Rows(img, n)
  {
    if img == [] then []
    else
      var m := |img| - 1;
      Encode(img[..m], types[..m], bpp, n) + [types[m]] + FilterRow(types[m], bpp, Above(img, m, n), img[m])
  }

  lemma {:induction false} EncodeLength(img: seq<seq<Byte>>, types: seq<Byte>, bpp: nat, n: nat)
    requires bpp > 0 && |types| == |img| && Rows(img, n)
    ensures |Encode(img, types, bpp, n)| == Times(|img|, n + 1)
  {
    hide Times, FilterByte;
    TimesSucc(|img|, n + 1);
    if img != [] {
      var m := |img| - 1;
      EncodeLength(img[..m], types[..m], bpp, n);
      TimesSucc(m, n + 1);
    }
  }

  lemma {:induction false} EncodeSnoc(img: seq<seq<Byte>>, types: seq<Byte>, bpp: nat, n: nat, row: seq<Byte>, t: Byte)
    requires bpp > 0 && |types| == |img| && Rows(img, n) && |row| == n
    ensures Encode(img + [row], types + [t], bpp, n)
      == Encode(img, types, bpp, n) + [t] + FilterRow(t, bpp, Above(img, |img|, n), row)
  {
    var i, s := img + [row], types + [t];
    assert i[..|img|] == img && s[..|img|] == types;
    assert Above(i, |img|, n) == Above(img, |img|, n);
  }

  lemma {:induction false} EncodeType(img: seq<seq<Byte>>, types: seq<Byte>, bpp: nat, n: nat, j: nat)
    requires bpp > 0 && |types| == |img| && Rows(img, n) && j < |img|
    ensures Times(j, n + 1) < |Encode(img, types, bpp, n)| && Encode(img, types, bpp, n)[Times(j, n + 1)] == types[j]
  {
    hide Times, FilterRow;
    var m := |img| - 1;
    EncodeLength(img[..m], types[..m], bpp, n);
    if j < m {
      EncodeType(img[..m], types[..m], bpp, n, j);
    }
  }

  // ----- filtering loses nothing -----

  lemma {:induction false} RowDetermined(t: nat, bpp: nat, prior: seq<Byte>, r: seq<Byte>, s: seq<Byte>, u: nat)
    requires bpp > 0 && |r| == |s| <= |prior| && u <= |r|
    requires FilterRow(t, bpp, prior, r) == FilterRow(t, bpp, prior, s)
    ensures r[..u] == s[..u]
  {
    if u > 0 {
      RowDetermined(t, bpp, prior, r, s, u - 1);
      var k := u - 1;
      assert Left(r, k, bpp) == Left(s, k, bpp) by {
        if k >= bpp {
          assert r[k - bpp] == r[..k][k - bpp] && s[k - bpp] == s[..k][k - bpp];
        }
      }
      assert FilterRow(t, bpp, prior, r)[k] == FilterRow(t, bpp, prior, s)[k];
      assert FilterByte(t, bpp, prior, r, k) == FilterByte(t, bpp, prior, s, k);
      assert r[k] == s[k];
      assert r[..u] == r[..k] + [r[k]] && s[..u] == s[..k] + [s[k]];
    }
  }

  lemma SameTail(a: seq<Byte>, t: Byte, b: seq<Byte>, a': seq<Byte>, t': Byte, b': seq<Byte>)
    requires |a| == |a'| && a + [t] + b == a' + [t'] + b'
    ensures a == a' && t == t' && b == b'
  {
    var e, e' := a + [t] + b, a' + [t'] + b';
    assert a == e[..|a|] && a' == e'[..|a|];
    assert t == e[|a|] && t' == e'[|a|];
    assert b == e[|a| + 1..] && b' == e'[|a| + 1..];
  }

  /** An image and its filter types are determined by their encoding, whatever the types are: undoing the
      filters is the only way to read it. */
  lemma {:induction false} EncodeInjective(img: seq<seq<Byte>>, types: seq<Byte>, img': seq<seq<Byte>>,
      types': seq<Byte>, bpp: nat, n: nat)
    requires bpp > 0 && |types| == |img| == |img'| == |types'| && Rows(img, n) && Rows(img', n)
    requires Encode(img, types, bpp, n) == Encode(img', types', bpp, n)
    ensures img == img' && types == types'
  {
    hide Times, FilterByte, FilterRow;
    if img != [] {
      var m := |img| - 1;
      EncodeLength(img[..m], types[..m], bpp, n);
      EncodeLength(img'[..m], types'[..m], bpp, n);
      SameTail(Encode(img[..m], types[..m], bpp, n), types[m], FilterRow(types[m], bpp, Above(img, m, n), img[m]),
               Encode(img'[..m], types'[..m], bpp, n), types'[m],
                   FilterRow(types'[m], bpp, Above(img', m, n), img'[m]));
      EncodeInjective(img[..m], types[..m], img'[..m], types'[..m], bpp, n);
      LastRow(img, img', m, n);
      RowDetermined(types[m], bpp, Above(img, m, n), img[m], img'[m], n);
      assert img[m][..n] == img[m] && img'[m][..n] == img'[m];
      assert img == img[..m] + [img[m]] && img' == img'[..m] + [img'[m]];
      assert types == types[..m] + [types[m]] && types' == types'[..m] + [types'[m]];
    }
  }

  lemma LastRow(img: seq<seq<Byte>>, img': seq<seq<Byte>>, m: nat, n: nat)
    requires |img| == |img'| == m + 1 && img[..m] == img'[..m]
    ensures Above(img, m, n) == Above(img', m, n)
  {
    if m > 0 {
      assert img[m - 1] == img[..m][m - 1] && img'[m - 1] == img'[..m][m - 1];
    }
  }
}
