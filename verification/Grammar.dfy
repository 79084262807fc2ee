// What the framing of resp.c accepts, as a grammar, and what its numbers mean.
module Grammar {
  import opened KvData
  import opened Resp
  import opened Commands
  import TimeKey
  import E = RespEncode

  // ---------------------------------------------------------------- numbers

  // A line as atoi reads it: white space, a sign or none, digits, the rest.
  ghost predicate Dissected(space: Bytes, sign: Bytes, digits: Bytes, rest: Bytes) {
    && (forall i :: 0 <= i < |space| ==> space[i] == 32 || 9 <= space[i] <= 13)
    && (sign == [] || sign == [43] || sign == [45])
    && (forall i :: 0 <= i < |digits| ==> 48 <= digits[i] <= 57)
    && (rest != [] ==> !(48 <= rest[0] <= 57))
    && (sign == [] && digits == [] && rest != [] ==>
          rest[0] != 32 && !(9 <= rest[0] <= 13) && rest[0] != 43 && rest[0] != 45)
  }

  function Signed(sign: Bytes, n: nat): int {
    if sign == [45] then 0 - n else n
  }

  lemma {:induction false} LeadingStops(digits: Bytes, rest: Bytes, acc: nat)
    requires TimeKey.Decimal(digits) && (rest != [] ==> !(48 <= rest[0] <= 57))
    ensures Leading(digits + rest, acc) == Leading(digits, acc)
    decreases |digits|
  {
    if digits == [] {
      assert digits + rest == rest;
    } else {
      assert (digits + rest)[1..] == digits[1..] + rest;
      LeadingStops(digits[1..], rest, 10 * acc + (digits[0] - 48));
    }
  }

  lemma {:induction false} LeadingIsValue(digits: Bytes)
    requires TimeKey.Decimal(digits)
    ensures Leading(digits, 0) == TimeKey.Value(digits)
  {
    if digits != [] {
      var n := |digits| - 1;
      LeadingIsValue(digits[..n]);
      E.LeadingAppend(digits[..n], digits[n], 0);
      assert digits[..n] + [digits[n]] == digits;
    }
  }

  lemma {:induction false} SpaceSkipped(space: Bytes, s: Bytes)
    requires forall i :: 0 <= i < |space| ==> space[i] == 32 || 9 <= space[i] <= 13
    requires s != [] ==> s[0] != 32 && !(9 <= s[0] <= 13)
    ensures SkipSpace(space + s) == s
    decreases |space|
  {
    if space == [] {
      assert space + s == s;
    } else {
      assert (space + s)[1..] == space[1..] + s;
      SpaceSkipped(space[1..], s);
    }
  }

  // What both readers make of such a line before they look at its size.
  lemma {:induction false} NumberReads(space: Bytes, sign: Bytes, digits: Bytes, rest: Bytes)
    requires Dissected(space, sign, digits, rest)
    ensures var s := sign + digits + rest;
      && SkipSpace(space + s) == s
      && (s != [] ==> (sign == [45] <==> s[0] == 45))
      && (s != [] ==> Leading(if s[0] == 43 || s[0] == 45 then s[1..] else s, 0) == TimeKey.Value(digits))
      && (s == [] ==> TimeKey.Value(digits) == 0)
  {
    var s := sign + digits + rest;
    SpaceSkipped(space, s);
    LeadingStops(digits, rest, 0);
    LeadingIsValue(digits);
    hide Leading, SkipSpace, TimeKey.Value;
    if sign != [] {
      assert s[0] == sign[0] && s[1..] == digits + rest;
    } else {
      assert s == digits + rest;
      assert digits != [] ==> s[0] == digits[0];
      assert digits == [] ==> s == rest;
    }
    if s == [] { assert digits == []; }
    assert TimeKey.Value([]) == 0 by { NoDigits(); }
  }

  lemma {:induction false} NoDigits()
    ensures TimeKey.Value([]) == 0
  {}

  lemma {:induction false} AtoiReads(space: Bytes, sign: Bytes, digits: Bytes, rest: Bytes)
    requires Dissected(space, sign, digits, rest)
    ensures Atoi(space + (sign + digits + rest)) ==
      if sign + digits + rest == [] || TimeKey.Value(digits) > 2147483647 then None
      else Some(Signed(sign, TimeKey.Value(digits)))
  {
    NumberReads(space, sign, digits, rest);
  }

  lemma {:induction false} AtollReads(space: Bytes, sign: Bytes, digits: Bytes, rest: Bytes)
    requires Dissected(space, sign, digits, rest)
    ensures var v := TimeKey.Value(digits);
      Atoll(space + (sign + digits + rest)) == Signed(sign, if v > 9223372036854775807 then 9223372036854775807 else v)
  {
    NumberReads(space, sign, digits, rest);
  }

  // Every line can be taken apart like that.
  lemma {:induction false} Dissect(line: Bytes) returns (space: Bytes, sign: Bytes, digits: Bytes, rest: Bytes)
    ensures Dissected(space, sign, digits, rest) && line == space + (sign + digits + rest)
  {
    var i := 0;
    while i < |line| && (line[i] == 32 || 9 <= line[i] <= 13)
      invariant 0 <= i <= |line| && forall k :: 0 <= k < i ==> line[k] == 32 || 9 <= line[k] <= 13
    {
      i := i + 1;
    }
    var j := if i < |line| && (line[i] == 43 || line[i] == 45) then i + 1 else i;
    var k := j;
    while k < |line| && 48 <= line[k] <= 57
      invariant j <= k <= |line| && forall m :: j <= m < k ==> 48 <= line[m] <= 57
    {
      k := k + 1;
    }
    space, sign, digits, rest := line[..i], line[i..j], line[j..k], line[k..];
    assert line[i..] == sign + digits + rest;
  }

  // --------------------------------------------------------------- requests

  // A line that ends at the first CR LF after it.
  ghost predicate OneLine(s: Bytes) {
    forall i :: 0 <= i && i + 1 < |s| ==> !(s[i] == 13 && s[i + 1] == 10)
  }

  ghost predicate IsBulk(s: Bytes, arg: Bytes) {
    exists line :: IsBulkOf(s, arg, line)
  }

  ghost predicate IsBulkOf(s: Bytes, arg: Bytes, line: Bytes) {
    OneLine(line) && Atoi(line) == Some(|arg|) && s == [36] + line + [13, 10] + arg + [13, 10]
  }

  ghost predicate AreBulks(s: Bytes, args: seq<Bytes>)
    decreases |args|
  {
    if args == [] then s == []
    else exists k :: 0 <= k <= |s| && IsBulk(s[..k], args[0]) && AreBulks(s[k..], args[1..])
  }

  ghost predicate IsRequest(s: Bytes, args: seq<Bytes>) {
    exists line :: IsRequestOf(s, args, line)
  }

  // "*", a number, CR LF, and that many bulk strings; none if it is negative.
  ghost predicate IsRequestOf(s: Bytes, args: seq<Bytes>, line: Bytes) {
    && OneLine(line) && Atoi(line).Some? && |args| == (if Atoi(line).value < 0 then 0 else Atoi(line).value)
    && 3 + |line| <= |s| && s[..3 + |line|] == [42] + line + [13, 10]
    && AreBulks(s[3 + |line|..], args)
  }

  // The line that begins behind position p.
  lemma {:induction false} LineFound(b: Bytes, p: nat, line: Bytes)
    requires OneLine(line) && p + 3 + |line| <= |b| && b[p] != 13
    requires b[p + 1..p + 3 + |line|] == line + [13, 10]
    ensures FindCrlf(b, p) == Some(p + 1 + |line|) && b[p + 1..p + 1 + |line|] == line
  {
    var c := p + 1 + |line|;
    var t := b[p + 1..p + 3 + |line|];
    assert forall j :: 0 <= j < |t| ==> b[p + 1 + j] == t[j];
    assert b[p + 1..c] == t[..|line|] == line;
    assert b[c] == t[|line|] && b[c + 1] == t[|line| + 1];
    forall j | p <= j < c ensures !(b[j] == 13 && b[j + 1] == 10) {
      if j > p { assert b[j] == t[j - p - 1] && b[j + 1] == t[j - p]; }
    }
    FirstCrlf(b, p, c);
  }

  lemma {:induction false} FirstCrlf(b: Bytes, i: nat, c: nat)
    requires i <= c && c + 1 < |b| && b[c] == 13 && b[c + 1] == 10
    requires forall j :: i <= j < c ==> !(b[j] == 13 && b[j + 1] == 10)
    ensures FindCrlf(b, i) == Some(c)
    decreases c - i
  {
    if i < c { FirstCrlf(b, i + 1, c); }
  }

  lemma {:induction false} FoundIsLine(b: Bytes, p: nat)
    requires FindCrlf(b, p).Some? && b[p] != 13
    ensures var c := FindCrlf(b, p).value;
      c > p && OneLine(b[p + 1..c]) && b[c] == 13 && b[c + 1] == 10
  {
    var c := FindCrlf(b, p).value;
    NoneBefore(b, p);
    var line := b[p + 1..c];
    assert forall j :: 0 <= j < |line| ==> line[j] == b[p + 1 + j];
  }

  lemma {:induction false} NoneBefore(b: Bytes, i: nat)
    requires FindCrlf(b, i).Some?
    ensures forall j :: i <= j < FindCrlf(b, i).value ==> !(b[j] == 13 && b[j + 1] == 10)
    decreases |b| - i
  {
    if !(b[i] == 13 && b[i + 1] == 10) { NoneBefore(b, i + 1); }
  }

  lemma {:induction false} Cut(b: Bytes, i: nat, j: nat, k: nat)
    requires i <= j <= k <= |b|
    ensures b[i..k] == b[i..j] + b[j..k]
  {}

  lemma {:induction false} Assembled(b: Bytes, p: nat, c: nat, q: nat)
    requires p < c && c + 2 <= q && q + 2 <= |b| && b[p] == 36
    requires b[c] == 13 && b[c + 1] == 10 && b[q] == 13 && b[q + 1] == 10
    ensures b[p..q + 2] == [36] + b[p + 1..c] + [13, 10] + b[c + 2..q] + [13, 10]
  {
    Cut(b, p, p + 1, c);
    Cut(b, p, c, c + 2);
    Cut(b, p, c + 2, q);
    Cut(b, p, q, q + 2);
    assert b[p..p + 1] == [36] && b[c..c + 2] == [13, 10] == b[q..q + 2];
  }

  lemma {:induction false} GotIsBulk(b: Bytes, p: nat)
    requires BulkAt(b, p).Got?
    ensures IsBulk(b[p..BulkAt(b, p).next], BulkAt(b, p).data)
  {
    FoundIsLine(b, p);
    var c := FindCrlf(b, p).value;
    var line, arg, next := b[p + 1..c], BulkAt(b, p).data, BulkAt(b, p).next;
    hide Atoi, FindCrlf, OneLine;
    Assembled(b, p, c, next - 2);
    assert IsBulkOf(b[p..next], arg, line);
  }

  lemma {:induction false} BulkPieces(s: Bytes, line: Bytes, arg: Bytes)
    requires s == [36] + line + [13, 10] + arg + [13, 10]
    ensures var q := 3 + |line|;
      && |s| == q + |arg| + 2 && s[0] == 36 && s[1..q] == line + [13, 10] && s[q..q + |arg|] == arg
      && s[q + |arg|] == 13 && s[q + |arg| + 1] == 10
  {}

  lemma {:induction false} BulkBytes(b: Bytes, p: nat, next: nat, line: Bytes, arg: Bytes)
    requires p <= next <= |b| && b[p..next] == [36] + line + [13, 10] + arg + [13, 10]
    ensures var q := p + 3 + |line|;
      && next == q + |arg| + 2 && b[p] == 36 && b[p + 1..q] == line + [13, 10] && b[q..q + |arg|] == arg
      && b[q + |arg|] == 13 && b[q + |arg| + 1] == 10
  {
    var s, q := b[p..next], 3 + |line|;
    BulkPieces(s, line, arg);
    Slice(b, p, next, 1, q);
    Slice(b, p, next, q, q + |arg|);
    assert b[p] == s[0] && b[p + q + |arg|] == s[q + |arg|] && b[p + q + |arg| + 1] == s[q + |arg| + 1];
  }

  lemma {:induction false} BulkIsGot(b: Bytes, p: nat, next: nat, arg: Bytes)
    requires p <= next <= |b| && IsBulk(b[p..next], arg)
    ensures BulkAt(b, p) == Got(arg, next)
  {
    hide Atoi, FindCrlf, OneLine, BulkAt;
    var line :| IsBulkOf(b[p..next], arg, line);
    BulkBytes(b, p, next, line, arg);
    LineFound(b, p, line);
    BulkWith(b, p, p + 1 + |line|, arg);
  }

  lemma {:induction false} Slice(b: Bytes, p: nat, next: nat, i: nat, j: nat)
    requires p <= next <= |b| && i <= j <= next - p
    ensures b[p..next][i..j] == b[p + i..p + j]
  {
    var x, y := b[p..next][i..j], b[p + i..p + j];
    forall k | 0 <= k < |x| ensures x[k] == y[k] { assert x[k] == b[p..next][i + k]; }
    assert |x| == |y|;
  }

  lemma {:induction false} BulkWith(b: Bytes, p: nat, c: nat, arg: Bytes)
    requires p < |b| && b[p] == 36 && FindCrlf(b, p) == Some(c) && p < c && c + 2 + |arg| + 2 <= |b|
    requires Atoi(b[p + 1..c]) == Some(|arg|) && b[c + 2..c + 2 + |arg|] == arg
    requires b[c + 2 + |arg|] == 13 && b[c + 2 + |arg| + 1] == 10
    ensures BulkAt(b, p) == Got(arg, c + 2 + |arg| + 2)
  {
    hide Atoi, FindCrlf;
  }

  lemma {:induction false} ArgsAreBulks(b: Bytes, p: nat, n: int, acc: seq<Bytes>)
    requires p <= |b| && Args(b, p, n, acc).Complete?
    ensures var f := Args(b, p, n, acc);
      && p <= f.len <= |b| && acc <= f.args && |f.args| == |acc| + (if n < 0 then 0 else n)
      && AreBulks(b[p..f.len], f.args[|acc|..])
    decreases if n < 0 then 0 else n
  {
    var f := Args(b, p, n, acc);
    hide BulkAt, IsBulk;
    if n > 0 {
      var bulk := BulkAt(b, p);
      ArgsAreBulks(b, bulk.next, n - 1, acc + [bulk.data]);
      GotIsBulk(b, p);
      var k, rest := bulk.next - p, f.args[|acc|..];
      assert b[p..f.len][..k] == b[p..bulk.next] && b[p..f.len][k..] == b[bulk.next..f.len];
      assert rest[0] == (acc + [bulk.data])[|acc|] == bulk.data && rest[1..] == f.args[|acc| + 1..];
    }
  }

  lemma {:induction false} BulksAreArgs(b: Bytes, p: nat, args: seq<Bytes>, acc: seq<Bytes>)
    requires p <= |b| && AreBulks(b[p..], args)
    ensures Args(b, p, |args|, acc) == Complete(|b|, acc + args)
    decreases |args|
  {
    hide BulkAt, IsBulk;
    if args == [] {
      assert acc + args == acc && |b[p..]| == 0;
    } else {
      var s := b[p..];
      var k :| 0 <= k <= |s| && IsBulk(s[..k], args[0]) && AreBulks(s[k..], args[1..]);
      assert s[..k] == b[p..p + k] && s[k..] == b[p + k..];
      BulkIsGot(b, p, p + k, args[0]);
      BulksAreArgs(b, p + k, args[1..], acc + [args[0]]);
      assert (acc + [args[0]]) + args[1..] == acc + args;
    }
  }

  lemma {:induction false} Header(s: Bytes) returns (line: Bytes)
    requires FrameOf(s).Complete?
    ensures OneLine(line) && Atoi(line).Some? && 3 + |line| <= |s| && s[..3 + |line|] == [42] + line + [13, 10]
    ensures FrameOf(s) == Args(s, 3 + |line|, Atoi(line).value, [])
  {
    FoundIsLine(s, 0);
    var c := FindCrlf(s, 0).value;
    line := s[1..c];
    hide Atoi, FindCrlf, Args, OneLine;
    assert s[..c + 2] == [42] + line + [13, 10];
  }

  lemma {:induction false} WholeIsRequest(s: Bytes, args: seq<Bytes>)
    requires FrameOf(s) == Complete(|s|, args)
    ensures IsRequest(s, args)
  {
    var line := Header(s);
    hide FrameOf, Atoi, Args, AreBulks, OneLine;
    var p := 3 + |line|;
    ArgsAreBulks(s, p, Atoi(line).value, []);
    assert s[p..|s|] == s[p..] && args[0..] == args;
    assert IsRequestOf(s, args, line);
  }

  lemma {:induction false} HeaderFound(s: Bytes, line: Bytes)
    requires OneLine(line) && Atoi(line).Some? && 3 + |line| <= |s| && s[..3 + |line|] == [42] + line + [13, 10]
    ensures FrameOf(s) == Args(s, 3 + |line|, Atoi(line).value, [])
  {
    var p := 3 + |line|;
    assert s[0] == s[..p][0] == 42 && s[1..p] == s[..p][1..] == line + [13, 10];
    assert line != [];
    LineFound(s, 0, line);
    hide Atoi, FindCrlf, Args, OneLine;
  }

  lemma {:induction false} RequestIsWhole(s: Bytes, args: seq<Bytes>)
    requires IsRequest(s, args)
    ensures FrameOf(s) == Complete(|s|, args)
  {
    var line :| IsRequestOf(s, args, line);
    hide FrameOf, Atoi, AreBulks, OneLine, BulkAt;
    HeaderFound(s, line);
    var p, n := 3 + |line|, Atoi(line).value;
    BulksAreArgs(s, p, args, []);
    assert [] + args == args;
    if n < 0 {
      NoBulks(s[p..]);
      assert Args(s, p, n, []) == Complete(p, []);
    }
  }

  lemma {:induction false} NoBulks(s: Bytes)
    requires AreBulks(s, [])
    ensures s == []
  {}

  // A buffer is found to start with a whole request of this length and with these
  // arguments if and only if it does, by the grammar.
  lemma {:induction false} FrameIs(b: Bytes, len: nat, args: seq<Bytes>)
    ensures FrameOf(b) == Complete(len, args) <==> len <= |b| && IsRequest(b[..len], args)
  {
    hide FrameOf, IsRequest;
    if FrameOf(b) == Complete(len, args) {
      Stable(b, []);
      assert b[..len] + [] == b[..len];
      WholeIsRequest(b[..len], args);
    }
    if len <= |b| && IsRequest(b[..len], args) {
      RequestIsWhole(b[..len], args);
      Stable(b[..len], b[len..]);
      assert b[..len][..len] == b[..len] && b[..len] + b[len..] == b;
    }
  }
}
