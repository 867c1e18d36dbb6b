// The one-at-a-time hash of an element key.
module ElemHash {
  import opened SortedIds
  import opened ElemKeys

  // ---- Mixing one byte, and undoing it ----------------------------------------------

  // h += h << n
  function Add3(h: bv32): bv32 { h + (h << 3) }
  function Add10(h: bv32): bv32 { h + (h << 10) }
  function Add15(h: bv32): bv32 { h + (h << 15) }

  // h ^= h >> n
  function Xor6(h: bv32): bv32 { h ^ (h >> 6) }
  function Xor11(h: bv32): bv32 { h ^ (h >> 11) }

  function MixByte(h: bv32, b: bv32): bv32 {
    Xor6(Add10(h + b))
  }

  function Finish(h: bv32): bv32 {
    Add15(Xor11(Add3(h)))
  }

  // Each of these steps can be undone.  h + (h << n) is a product with an odd
  // number, undone by the product with its inverse.
  function Undo3(z: bv32): bv32 { z * 954437177 }
  function Undo10(z: bv32): bv32 { z * 3222273025 }
  function Undo15(z: bv32): bv32 { z * 1073709057 }

  function Undo6(z: bv32): bv32 {
    z ^ (z >> 6) ^ (z >> 12) ^ (z >> 18) ^ (z >> 24) ^ (z >> 30)
  }

  function Undo11(z: bv32): bv32 {
    z ^ (z >> 11) ^ (z >> 22)
  }

  lemma Inverses(x: bv32)
    ensures Undo3(x * 9) == x && Undo10(x * 1025) == x && Undo15(x * 32769) == x
    ensures Undo6(x ^ (x >> 6)) == x && Undo11(x ^ (x >> 11)) == x
  {
  }

  lemma Product3(x: bv32, y: bv32)
    requires y == x * 9
    ensures Undo3(y) == x
  {
    hide Undo3;
    Inverses(x);
  }

  lemma Sum3(x: bv32)
    ensures Undo3(x + (x << 3)) == x
  {
    hide Undo3;
    Product3(x, x + (x << 3));
  }

  lemma Product10(x: bv32, y: bv32)
    requires y == x * 1025
    ensures Undo10(y) == x
  {
    hide Undo10;
    Inverses(x);
  }

  lemma Sum10(x: bv32)
    ensures Undo10(x + (x << 10)) == x
  {
    hide Undo10;
    Product10(x, x + (x << 10));
  }

  lemma Product15(x: bv32, y: bv32)
    requires y == x * 32769
    ensures Undo15(y) == x
  {
    hide Undo15;
    Inverses(x);
  }

  lemma Sum15(x: bv32)
    ensures Undo15(x + (x << 15)) == x
  {
    hide Undo15;
    Product15(x, x + (x << 15));
  }

  lemma AddsUndone(x: bv32)
    ensures Undo3(Add3(x)) == x && Undo10(Add10(x)) == x && Undo15(Add15(x)) == x
  {
    hide Undo3, Undo10, Undo15;
    Sum3(x);
    Sum10(x);
    Sum15(x);
  }

  lemma Xor6Undone(x: bv32)
    ensures Undo6(Xor6(x)) == x
  {
    hide Undo6;
    assert Undo6(x ^ (x >> 6)) == x by { Inverses(x); }
  }

  lemma Xor11Undone(x: bv32)
    ensures Undo11(Xor11(x)) == x
  {
    hide Undo11;
    assert Undo11(x ^ (x >> 11)) == x by { Inverses(x); }
  }

  function Unmix(z: bv32): bv32 {
    Undo10(Undo6(z))
  }

  function Unfinish(z: bv32): bv32 {
    Undo3(Undo11(Undo15(z)))
  }

  // Mixing loses nothing: the sum of state and byte can be recovered.
  lemma MixUndone(h: bv32, b: bv32)
    ensures Unmix(MixByte(h, b)) == h + b
  {
    hide Undo6, Xor6, Add10, Undo10;
    AddsUndone(h + b);
    Xor6Undone(Add10(h + b));
  }

  lemma FinishUndone(h: bv32)
    ensures Unfinish(Finish(h)) == h
  {
    hide Undo11, Xor11, Add3, Add15, Undo3, Undo15;
    AddsUndone(h);
    Xor11Undone(Add3(h));
    AddsUndone(Xor11(Add3(h)));
  }

  // ---- The hash of a byte string -----------------------------------------------------

  function MixAll(h: bv32, bytes: seq<bv32>): bv32
    decreases |bytes|
  {
    if bytes == [] then h else MixAll(MixByte(h, bytes[0]), bytes[1..])
  }

  // The n lowest bytes of k, lowest first.
  function BytesOf(k: bv32, n: nat): (r: seq<bv32>)
    ensures |r| == n
  {
    if n == 0 then [] else [k & 0xff] + BytesOf(k >> 8, n - 1)
  }

  // d are the four base-256 digits of k, lowest first.
  ghost predicate DigitsOf(k: bv32, d: seq<bv32>) {
    && |d| == 4 && d[0] < 256 && d[1] < 256 && d[2] < 256 && d[3] < 256
    && k == d[0] + 256 * d[1] + 65536 * d[2] + 16777216 * d[3]
  }

  lemma BytesAreDigits(k: bv32)
    ensures DigitsOf(k, BytesOf(k, 4)) && forall d :: DigitsOf(k, d) ==> d == BytesOf(k, 4)
  {
    FourBytes(k);
    Recomposed(k);
    forall d | DigitsOf(k, d)
      ensures d == BytesOf(k, 4)
    {
      DigitsRecovered(d[0], d[1], d[2], d[3]);
    }
  }

  lemma FourBytes(k: bv32)
    ensures BytesOf(k, 4) == [k & 0xff, (k >> 8) & 0xff, (k >> 16) & 0xff, (k >> 24) & 0xff]
  {
    ShiftsAdd(k);
    assert BytesOf(k, 4) == [k & 0xff] + BytesOf(k >> 8, 3);
    assert BytesOf(k >> 8, 3) == [(k >> 8) & 0xff] + BytesOf(k >> 8 >> 8, 2);
    assert BytesOf(k >> 16, 2) == [(k >> 16) & 0xff] + BytesOf(k >> 16 >> 8, 1);
    assert BytesOf(k >> 24, 1) == [(k >> 24) & 0xff] + BytesOf(k >> 24 >> 8, 0);
  }

  lemma ShiftsAdd(k: bv32)
    ensures k >> 8 >> 8 == k >> 16 && k >> 16 >> 8 == k >> 24
  {
  }

  lemma Recomposed(k: bv32)
    ensures k == (k & 0xff) + 256 * ((k >> 8) & 0xff) + 65536 * ((k >> 16) & 0xff) + 16777216 * ((k >> 24) & 0xff)
    ensures k & 0xff < 256 && (k >> 8) & 0xff < 256 && (k >> 16) & 0xff < 256 && (k >> 24) & 0xff < 256
  {
  }

  lemma DigitsRecovered(a: bv32, b: bv32, c: bv32, d: bv32)
    requires a < 256 && b < 256 && c < 256 && d < 256
    ensures var k := a + 256 * b + 65536 * c + 16777216 * d;
      k & 0xff == a && (k >> 8) & 0xff == b && (k >> 16) & 0xff == c && (k >> 24) & 0xff == d
  {
  }

  function Word(id: Id): bv32 {
    id as bv32
  }

  function AllBytes(vertices: seq<Id>): (r: seq<bv32>)
    ensures |r| == 4 * |vertices|
  {
    if vertices == [] then [] else BytesOf(Word(vertices[0]), 4) + AllBytes(vertices[1..])
  }

  function HashOf(vertices: seq<Id>): bv32 {
    Finish(MixAll(0, AllBytes(vertices)))
  }

  lemma {:induction false} MixAllSplits(h: bv32, a: seq<bv32>, b: seq<bv32>)
    ensures MixAll(h, a + b) == MixAll(MixAll(h, a), b)
    decreases |a|
  {
    hide MixByte;
    if a == [] {
      assert a + b == b;
    } else {
      assert (a + b)[0] == a[0] && (a + b)[1..] == a[1..] + b;
      MixAllSplits(MixByte(h, a[0]), a[1..], b);
    }
  }

  method Hash(a: ElemKey) returns (r: bv32)
    ensures r == HashOf(a.vertices)
  {
    hide MixByte, Finish, Word;
    var h: bv32 := 0;
    for i := 0 to |a.vertices|
      invariant MixAll(0, AllBytes(a.vertices)) == MixAll(h, AllBytes(a.vertices[i..]))
    {
      h := HashVertex(h, Word(a.vertices[i]), AllBytes(a.vertices[i + 1..]));
      assert a.vertices[i..][0] == a.vertices[i] && a.vertices[i..][1..] == a.vertices[i + 1..];
    }
    r := FinishHash(h);
  }

  // The inner loop: mixes the four bytes of one vertex, ahead of whatever follows.
  method HashVertex(h0: bv32, vertex: bv32, ghost rest: seq<bv32>) returns (h: bv32)
    ensures MixAll(h0, BytesOf(vertex, 4) + rest) == MixAll(h, rest)
  {
    hide MixByte;
    h := h0;
    var k := vertex;
    for i := 0 to 4
      invariant MixAll(h0, BytesOf(vertex, 4)) == MixAll(h, BytesOf(k, 4 - i))
    {
      h := MixInto(h, k & 0xff);
      assert BytesOf(k, 4 - i)[1..] == BytesOf(k >> 8, 3 - i);
      k := k >> 8;
    }
    MixAllSplits(h0, BytesOf(vertex, 4), rest);
  }

  method MixInto(h0: bv32, b: bv32) returns (h: bv32)
    ensures h == MixByte(h0, b)
  {
    hide Add10, Xor6;
    h := h0 + b;
    h := Add10(h);
    h := Xor6(h);
  }

  method FinishHash(h0: bv32) returns (h: bv32)
    ensures h == Finish(h0)
  {
    hide Add3, Xor11, Add15;
    h := Add3(h0);
    h := Xor11(h);
    h := Add15(h);
  }

  // ---- Properties ---------------------------------------------------------------------

  // Any function of the sorted nodes has equal elements agree; Hash is one.
  lemma EqualElemsHashAlike(lhs: seq<Id>, rhs: seq<Id>)
    requires multiset(lhs) == multiset(rhs)
    ensures HashOf(Sort(lhs)) == HashOf(Sort(rhs))
  {
    SortedUnique(Sort(lhs), Sort(rhs));
  }

  // operator== of two elements, equality of their keys and the hash of the keys
  // are consistent, however each element numbers its nodes.
  method HashesAgree(lhs: seq<Id>, rhs: seq<Id>)
    returns (elemsEqual: bool, keysEqual: bool, lhsHash: bv32, rhsHash: bv32)
    ensures elemsEqual <==> multiset(lhs) == multiset(rhs)
    ensures keysEqual <==> elemsEqual
    ensures elemsEqual ==> lhsHash == rhsHash
  {
    hide HashOf, Sort;
    elemsEqual := ElemsEqual(lhs, rhs);
    EqualKeysMeanEqualElems(lhs, rhs);
    if elemsEqual {
      EqualElemsHashAlike(lhs, rhs);
    }
    var lhsKey := new ElemKey.FromElem(lhs);
    var rhsKey := new ElemKey.FromElem(rhs);
    keysEqual := Equal(lhsKey, rhsKey);
    lhsHash := Hash(lhsKey);
    rhsHash := Hash(rhsKey);
  }

  lemma MixInjective(h: bv32, h': bv32, b: bv32, b': bv32)
    requires h + b != h' + b'
    ensures MixByte(h, b) != MixByte(h', b')
  {
    hide MixByte, Unmix;
    MixUndone(h, b);
    MixUndone(h', b');
  }

  lemma SumsApart(h: bv32, h': bv32, b: bv32)
    requires h != h'
    ensures h + b != h' + b && b + h != b + h'
  {
  }

  lemma MixStatesApart(h: bv32, h': bv32, b: bv32)
    requires h != h'
    ensures MixByte(h, b) != MixByte(h', b)
  {
    hide MixByte;
    SumsApart(h, h', b);
    MixInjective(h, h', b, b);
  }

  lemma MixBytesApart(h: bv32, b: bv32, b': bv32)
    requires b != b'
    ensures MixByte(h, b) != MixByte(h, b')
  {
    hide MixByte;
    SumsApart(b, b', h);
    MixInjective(h, h, b, b');
  }

  // Different states stay different whatever bytes follow.
  lemma {:induction false} StatesStayApart(h: bv32, h': bv32, bytes: seq<bv32>)
    requires h != h'
    ensures MixAll(h, bytes) != MixAll(h', bytes)
    decreases |bytes|
  {
    hide MixByte;
    if bytes == [] {
    } else {
      MixStatesApart(h, h', bytes[0]);
      StatesStayApart(MixByte(h, bytes[0]), MixByte(h', bytes[0]), bytes[1..]);
    }
  }

  // Two byte strings that differ in one place only, mixed from any state.
  lemma OneByteApart(x: seq<bv32>, y: seq<bv32>, j: nat)
    requires |x| == |y| && j < |x| && x[j] != y[j]
    requires forall i :: 0 <= i < |x| && i != j ==> x[i] == y[i]
    ensures MixAll(0, x) != MixAll(0, y)
  {
    hide MixByte;
    var h := MixAll(0, x[..j]);
    assert x[..j] == y[..j] && x[j + 1..] == y[j + 1..];
    assert x == x[..j] + x[j..] && y == y[..j] + y[j..];
    MixAllSplits(0, x[..j], x[j..]);
    MixAllSplits(0, y[..j], y[j..]);
    MixBytesApart(h, x[j], y[j]);
    assert x[j..][1..] == x[j + 1..] && y[j..][1..] == y[j + 1..];
    StatesStayApart(MixByte(h, x[j]), MixByte(h, y[j]), x[j + 1..]);
  }

  // Two keys whose bytes differ in exactly one place never collide.
  lemma OneByteApartHashes(a: seq<Id>, b: seq<Id>, j: nat)
    requires |a| == |b| && j < 4 * |a| && AllBytes(a)[j] != AllBytes(b)[j]
    requires forall i :: 0 <= i < 4 * |a| && i != j ==> AllBytes(a)[i] == AllBytes(b)[i]
    ensures HashOf(a) != HashOf(b)
  {
    hide MixAll, Finish, Unfinish, AllBytes;
    var x, y := AllBytes(a), AllBytes(b);
    OneByteApart(x, y, j);
    FinishUndone(MixAll(0, x));
    FinishUndone(MixAll(0, y));
  }

  // The bytes of a key are the digits of its ids, one id after the other.
  lemma {:induction false} BytesByVertex(ids: seq<Id>, m: nat, j: nat)
    requires m < |ids| && j < 4
    ensures AllBytes(ids)[4 * m + j] == BytesOf(Word(ids[m]), 4)[j]
  {
    hide BytesOf, Word;
    var bytes, rest := AllBytes(ids), ids[1..];
    assert bytes == BytesOf(Word(ids[0]), 4) + AllBytes(rest);
    hide AllBytes;
    if m == 0 {
    } else {
      BytesByVertex(rest, m - 1, j);
      assert rest[m - 1] == ids[m];
    }
  }

  // Two keys that agree in all ids but one, and there differ in one base-256
  // digit, never collide.
  lemma OneByteNeverCollides(a: seq<Id>, b: seq<Id>, m: nat, d: seq<bv32>, e: seq<bv32>, j: nat)
    requires |a| == |b| && m < |a| && forall i :: 0 <= i < |a| && i != m ==> a[i] == b[i]
    requires DigitsOf(a[m] as bv32, d) && DigitsOf(b[m] as bv32, e)
    requires j < 4 && d[j] != e[j] && forall i :: 0 <= i < 4 && i != j ==> d[i] == e[i]
    ensures HashOf(a) != HashOf(b)
  {
    BytesAreDigits(Word(a[m]));
    BytesAreDigits(Word(b[m]));
    hide BytesOf, AllBytes, HashOf, DigitsOf, Word;
    forall i | 0 <= i < 4 * |a|
      ensures AllBytes(a)[i] == AllBytes(b)[i] <==> i != 4 * m + j
    {
      BytesAt(a, b, m, j, i / 4, i % 4);
    }
    OneByteApartHashes(a, b, 4 * m + j);
  }

  lemma BytesAt(a: seq<Id>, b: seq<Id>, m: nat, j: nat, m': nat, j': nat)
    requires |a| == |b| && m < |a| && m' < |a| && j < 4 && j' < 4 && forall i :: 0 <= i < |a| && i != m ==> a[i] == b[i]
    requires forall i :: 0 <= i < 4 ==> (BytesOf(Word(a[m]), 4)[i] == BytesOf(Word(b[m]), 4)[i] <==> i != j)
    ensures AllBytes(a)[4 * m' + j'] == AllBytes(b)[4 * m' + j'] <==> 4 * m' + j' != 4 * m + j
  {
    hide BytesOf, AllBytes, Word;
    BytesByVertex(a, m', j');
    BytesByVertex(b, m', j');
  }

  // Two values, worked out step by step.
  lemma KnownHashes()
    ensures HashOf([1]) == 10338022 && HashOf([1, 515]) == 3365201157
  {
    KnownBytes();
    KnownMixes();
    MixFour(0, 1, 0, 0, 0);
    MixFour(300581581, 3, 2, 0, 0);
    hide MixAll, AllBytes, MixByte, Finish;
    MixAllSplits(0, [1, 0, 0, 0], [3, 2, 0, 0]);
  }

  lemma KnownBytes()
    ensures AllBytes([1]) == [1, 0, 0, 0] && AllBytes([1, 515]) == [1, 0, 0, 0] + [3, 2, 0, 0]
  {
    KnownWords();
    hide BytesOf, Word;
    assert AllBytes([515]) == BytesOf(515, 4) + AllBytes([]);
    assert AllBytes([1]) == BytesOf(1, 4) + AllBytes([]);
    assert [1, 515][1..] == [515];
  }

  lemma KnownWords()
    ensures Word(1) == 1 && Word(515) == 515
    ensures BytesOf(1, 4) == [1, 0, 0, 0] && BytesOf(515, 4) == [3, 2, 0, 0]
  {
    FourBytes(1);
    FourBytes(515);
    hide BytesOf;
  }

  lemma KnownMixes()
    ensures MixByte(0, 1) == 1041 && MixByte(1041, 0) == 1050929
    ensures MixByte(1050929, 0) == 1093934597 && MixByte(1093934597, 0) == 300581581
    ensures MixByte(300581581, 3) == 3105494491 && MixByte(3105494491, 2) == 569659386
    ensures MixByte(569659386, 0) == 4042843941 && MixByte(4042843941, 0) == 3620155081
    ensures Finish(300581581) == 10338022 && Finish(3620155081) == 3365201157
  {
  }

  lemma MixFour(h: bv32, b0: bv32, b1: bv32, b2: bv32, b3: bv32)
    ensures MixAll(h, [b0, b1, b2, b3]) == MixByte(MixByte(MixByte(MixByte(h, b0), b1), b2), b3)
  {
    hide MixByte;
    assert [b0, b1, b2, b3][1..] == [b1, b2, b3] && [b1, b2, b3][1..] == [b2, b3] && [b2, b3][1..] == [b3];
    var h1 := MixByte(h, b0);
    var h2 := MixByte(h1, b1);
    var h3 := MixByte(h2, b2);
    assert MixAll(h3, [b3]) == MixByte(h3, b3);
    assert MixAll(h2, [b2, b3]) == MixAll(h3, [b3]);
    assert MixAll(h1, [b1, b2, b3]) == MixAll(h2, [b2, b3]);
  }
}
