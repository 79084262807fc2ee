// The framing of RESP requests: resp.c. A request is an array of bulk strings.
module Resp {
  import opened KvData

  const CR: byte := 13
  const LF: byte := 10
  const STAR: byte := 42
  const DOLLAR: byte := 36
  const INT_MAX: int := 0x7FFF_FFFF

  // The first CR LF at or after position i.
  function FindCrlf(b: Bytes, i: nat): (r: Option<nat>)
    ensures r.Some? ==> i <= r.value && r.value + 1 < |b| && b[r.value] == CR && b[r.value + 1] == LF
    decreases |b| - i
  {
    if i + 1 >= |b| then None
    else if b[i] == CR && b[i + 1] == LF then Some(i)
    else FindCrlf(b, i + 1)
  }

  predicate IsSpace(c: byte) {
    c == 32 || 9 <= c <= 13
  }

  predicate IsDigit(c: byte) {
    48 <= c < 58
  }

  function SkipSpace(s: Bytes): (r: Bytes)
    ensures |r| <= |s|
  {
    if s != [] && IsSpace(s[0]) then SkipSpace(s[1..]) else s
  }

  function Leading(s: Bytes, acc: nat): nat {
    if s != [] && IsDigit(s[0]) then Leading(s[1..], 10 * acc + (s[0] - 48)) else acc
  }

  // atoi on what stands before a CR LF. There is no result when the scan would
  // run past the line, or the number does not fit.
  function Atoi(line: Bytes): Option<int> {
    var s := SkipSpace(line);
    if s == [] then None
    else
      var v := Leading(if s[0] == 43 || s[0] == 45 then s[1..] else s, 0);
      if v > INT_MAX then None else Some(if s[0] == 45 then 0 - v else v)
  }

  // Wild: a number that the model does not follow, here an unreadable one or a
  // negative length.
  datatype Frame = Incomplete | Complete(len: nat, args: seq<Bytes>) | Wild

  datatype Bulk = Cut | Odd | Got(data: Bytes, next: nat)

  // One argument at position p.
  function BulkAt(b: Bytes, p: nat): (r: Bulk)
    ensures r.Got? ==> p + 5 <= r.next <= |b|
  {
    if p >= |b| || b[p] != DOLLAR then Cut
    else match FindCrlf(b, p)
      case None => Cut
      case Some(c) =>
        match Atoi(b[p + 1..c])
        case None => Odd
        case Some(len) =>
          if len < 0 then Odd
          else if c + 2 + len + 2 > |b| then Cut
          else if b[c + 2 + len] != CR || b[c + 2 + len + 1] != LF then Cut
          else Got(b[c + 2..c + 2 + len], c + 2 + len + 2)
  }

  // n arguments from position p on, after those in acc.
  function Args(b: Bytes, p: nat, n: int, acc: seq<Bytes>): (r: Frame)
    ensures r.Complete? ==> p <= r.len && (p <= |b| ==> r.len <= |b|)
    decreases if n < 0 then 0 else n
  {
    if n <= 0 then Complete(p, acc)
    else match BulkAt(b, p)
      case Cut => Incomplete
      case Odd => Wild
      case Got(data, next) => Args(b, next, n - 1, acc + [data])
  }

  // Whether a buffer starts with a whole request, its length and arguments.
  function FrameOf(b: Bytes): Frame {
    if |b| < 4 || b[0] != STAR then Incomplete
    else match FindCrlf(b, 0)
      case None => Incomplete
      case Some(c) =>
        match Atoi(b[1..c])
        case None => Wild
        case Some(argc) => Args(b, c + 2, argc, [])
  }

  // -------------------------------------------------- stable and prefix-free

  ghost predicate Agree(a: Bytes, b: Bytes, n: nat) {
    n <= |a| && n <= |b| && a[..n] == b[..n]
  }

  lemma {:induction false} AgreeAt(a: Bytes, b: Bytes, n: nat, i: nat, j: nat)
    requires Agree(a, b, n) && i <= j <= n
    ensures a[i..j] == b[i..j]
    ensures i < j ==> a[i] == b[i]
  {
    assert a[i..j] == a[..n][i..j];
    assert b[i..j] == b[..n][i..j];
    if i < j { assert a[i] == a[..n][i] && b[i] == b[..n][i]; }
  }

  lemma {:induction false} FindAgrees(a: Bytes, b: Bytes, i: nat, n: nat)
    requires FindCrlf(a, i).Some? && FindCrlf(a, i).value + 2 <= n && Agree(a, b, n)
    ensures FindCrlf(b, i) == FindCrlf(a, i)
    decreases |a| - i
  {
    AgreeAt(a, b, n, i, n);
    AgreeAt(a, b, n, i + 1, n);
    if !(a[i] == CR && a[i + 1] == LF) { FindAgrees(a, b, i + 1, n); }
  }

  // Cut before its end, the CR LF is not found.
  lemma {:induction false} FindCut(a: Bytes, i: nat, k: nat)
    requires FindCrlf(a, i).Some? && i <= k < FindCrlf(a, i).value + 2
    ensures FindCrlf(a[..k], i) == None
    decreases |a| - i
  {
    if i + 1 < k { FindCut(a, i + 1, k); }
  }

  lemma {:induction false} BulkAgrees(a: Bytes, b: Bytes, p: nat, m: nat)
    requires BulkAt(a, p).Got? && BulkAt(a, p).next <= m && Agree(a, b, m)
    ensures BulkAt(b, p) == BulkAt(a, p)
  {
    var c := FindCrlf(a, p).value;
    var len := Atoi(a[p + 1..c]).value;
    FindAgrees(a, b, p, m);
    AgreeAt(a, b, m, p, m);
    AgreeAt(a, b, m, p + 1, c);
    AgreeAt(a, b, m, c + 2, c + 2 + len);
    AgreeAt(a, b, m, c + 2 + len, m);
    AgreeAt(a, b, m, c + 2 + len + 1, m);
    hide Atoi, FindCrlf, Agree;
  }

  lemma {:induction false} BulkCut(a: Bytes, p: nat, k: nat)
    requires BulkAt(a, p).Got? && p <= k < BulkAt(a, p).next
    ensures BulkAt(a[..k], p) == Cut
  {
    var b := a[..k];
    if p < k {
      var c := FindCrlf(a, p).value;
      if k < c + 2 {
        FindCut(a, p, k);
      } else {
        FindAgrees(a, b, p, k);
        AgreeAt(a, b, k, p + 1, c);
      }
    }
  }

  lemma {:induction false} ArgsAgree(a: Bytes, b: Bytes, p: nat, n: int, acc: seq<Bytes>)
    requires p <= |a| && Args(a, p, n, acc).Complete? && Agree(a, b, Args(a, p, n, acc).len)
    ensures Args(b, p, n, acc) == Args(a, p, n, acc)
    decreases if n < 0 then 0 else n
  {
    hide BulkAt;
    if n > 0 {
      var m, bulk := Args(a, p, n, acc).len, BulkAt(a, p);
      ArgsAgree(a, b, bulk.next, n - 1, acc + [bulk.data]);
      BulkAgrees(a, b, p, m);
    }
  }

  lemma {:induction false} ArgsCut(a: Bytes, p: nat, n: int, acc: seq<Bytes>, k: nat)
    requires Args(a, p, n, acc).Complete? && p <= k < Args(a, p, n, acc).len && k <= |a|
    ensures Args(a[..k], p, n, acc) == Incomplete
    decreases if n < 0 then 0 else n
  {
    hide BulkAt;
    var bulk := BulkAt(a, p);
    if bulk.next <= k {
      BulkAgrees(a, a[..k], p, k);
      ArgsCut(a, bulk.next, n - 1, acc + [bulk.data], k);
    } else {
      BulkCut(a, p, k);
    }
  }

  // A complete request keeps its length and arguments whatever follows it.
  lemma {:induction false} Stable(a: Bytes, x: Bytes)
    requires FrameOf(a).Complete?
    ensures 4 <= FrameOf(a).len <= |a|
    ensures FrameOf(a[..FrameOf(a).len] + x) == FrameOf(a)
  {
    var n, c := FrameOf(a).len, FindCrlf(a, 0).value;
    var argc := Atoi(a[1..c]).value;
    HeaderLength(a, c);
    var b := a[..n] + x;
    assert Agree(a, b, n);
    FindAgrees(a, b, 0, n);
    AgreeAt(a, b, n, 1, c);
    AgreeAt(a, b, n, 0, n);
    ArgsAgree(a, b, c + 2, argc, []);
  }

  lemma {:induction false} HeaderLength(a: Bytes, c: nat)
    requires FindCrlf(a, 0) == Some(c) && a[0] == STAR && Atoi(a[1..c]).Some?
    ensures c >= 2
  {}

  // No strict prefix of a complete request is complete.
  lemma {:induction false} PrefixFree(a: Bytes, k: nat)
    requires FrameOf(a).Complete? && k < FrameOf(a).len
    ensures k < |a| && FrameOf(a[..k]) == Incomplete
  {
    Stable(a, []);
    var c := FindCrlf(a, 0).value;
    if 4 <= k {
      if k < c + 2 {
        FindCut(a, 0, k);
      } else {
        FindAgrees(a, a[..k], 0, k);
        AgreeAt(a, a[..k], k, 1, c);
        ArgsCut(a, c + 2, Atoi(a[1..c]).value, [], k);
      }
    }
  }
}
