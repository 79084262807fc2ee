// Byte strings and their order: kv_utils.c.
module KvData {

  type byte = b: int | 0 <= b < 256

  type Bytes = seq<byte>

  datatype Option<+T> = None | Some(value: T)

  // memcmp over the first n bytes: the difference at the first mismatch.
  function MemCmp(a: Bytes, b: Bytes, n: nat): int
    requires n <= |a| && n <= |b|
  {
    if n == 0 then 0
    else if a[0] != b[0] then a[0] - b[0]
    else MemCmp(a[1..], b[1..], n - 1)
  }

  // kv_data_compare: common prefix first, then length.
  function Compare(a: Bytes, b: Bytes): int {
    var n := if |a| < |b| then |a| else |b|;
    var cmp := MemCmp(a, b, n);
    if cmp != 0 then cmp
    else if |a| < |b| then -1
    else if |a| > |b| then 1
    else 0
  }

  // Lexicographic order, by the position k of the first difference.
  ghost predicate LessAt(a: Bytes, b: Bytes, k: nat) {
    && k <= |a| && k < |b|
    && a[..k] == b[..k]
    && (k < |a| ==> a[k] < b[k])
  }

  ghost predicate Less(a: Bytes, b: Bytes) {
    exists k: nat :: LessAt(a, b, k)
  }

  lemma EqualPrefix(a: Bytes, b: Bytes, k: nat, j: nat)
    requires j < k && k <= |a| && k <= |b| && a[..k] == b[..k]
    ensures a[j] == b[j]
  {
    assert a[j] == a[..k][j];
  }

  lemma CompareIsLexicographic(a: Bytes, b: Bytes)
    ensures Compare(a, b) < 0 <==> Less(a, b)
    ensures Compare(a, b) > 0 <==> Less(b, a)
    ensures Compare(a, b) == 0 <==> a == b
  {
    var k := FirstDifference(a, b);
    assert a == b || LessAt(a, b, k) || LessAt(b, a, k) by {
      if k == |a| == |b| { assert a == a[..k] && b == b[..k]; }
    }
    forall j: nat | LessAt(a, b, j) || LessAt(b, a, j)
      ensures j == k
    {
      if j < k { EqualPrefix(a, b, k, j); }
      if k < j { EqualPrefix(a, b, j, k); }
    }
  }

  // Where the scan of MemCmp stops, and what Compare says there.
  lemma {:induction false} FirstDifference(a: Bytes, b: Bytes) returns (k: nat)
    ensures k <= |a| && k <= |b| && a[..k] == b[..k]
    ensures k < |a| && k < |b| ==> a[k] != b[k]
    ensures Compare(a, b) < 0 <==> LessAt(a, b, k)
    ensures Compare(a, b) > 0 <==> LessAt(b, a, k)
  {
    if |a| == 0 || |b| == 0 || a[0] != b[0] {
      k := 0;
    } else {
      var j := FirstDifference(a[1..], b[1..]);
      k := j + 1;
      assert a[..k] == [a[0]] + a[1..][..j];
      assert b[..k] == [b[0]] + b[1..][..j];
    }
  }

  lemma CompareSymmetric(a: Bytes, b: Bytes)
    ensures Compare(a, b) < 0 <==> Compare(b, a) > 0
    ensures Compare(a, b) > 0 <==> Compare(b, a) < 0
    ensures Compare(a, b) == 0 <==> a == b
  {
    CompareIsLexicographic(a, b);
    CompareIsLexicographic(b, a);
  }

  lemma CompareTransitive(a: Bytes, b: Bytes, c: Bytes)
    requires Compare(a, b) < 0 && Compare(b, c) < 0
    ensures Compare(a, c) < 0
  {
    CompareIsLexicographic(a, b);
    CompareIsLexicographic(b, c);
    CompareIsLexicographic(a, c);
    var j: nat :| LessAt(a, b, j);
    var k: nat :| LessAt(b, c, k);
    var m := if j < k then j else k;
    assert a[..m] == a[..j][..m] == b[..j][..m] == b[..m];
    assert c[..m] == c[..k][..m] == b[..k][..m] == b[..m];
    if j < k {
      assert b[j] == b[..k][j] == c[..k][j] == c[j];
    } else if k < j {
      assert a[k] == a[..j][k] == b[..j][k] == b[k];
    }
    assert LessAt(a, c, m);
  }
}
