// Encoding a request, as protocol_handle_internal_del of resp.c does it, and
// reading it back.
module RespEncode {
  import opened KvData
  import opened Resp
  import opened SeqFacts
  import opened TimeKey

  const CRLF: Bytes := [CR, LF]

  // "%d" of a number that is not negative.
  function Print(n: nat): Bytes {
    Dec(1, n)
  }

  function BulkString(arg: Bytes): Bytes {
    [DOLLAR] + Print(|arg|) + CRLF + arg + CRLF
  }

  function Bulks(args: seq<Bytes>): Bytes {
    if args == [] then [] else BulkString(args[0]) + Bulks(args[1..])
  }

  function Encode(args: seq<Bytes>): Bytes {
    [STAR] + Print(|args|) + CRLF + Bulks(args)
  }

  // ------------------------------------------------------- reading a number

  lemma {:induction false} LeadingAppend(s: Bytes, d: byte, acc: nat)
    requires Decimal(s) && IsDigit(d)
    ensures Leading(s + [d], acc) == 10 * Leading(s, acc) + (d - 48)
  {
    if s != [] {
      assert (s + [d])[1..] == s[1..] + [d];
      LeadingAppend(s[1..], d, 10 * acc + (s[0] - 48));
    } else {
      assert ([d])[1..] == [];
    }
  }

  lemma {:induction false} LeadingOfDec(w: nat, n: nat)
    ensures Decimal(Dec(w, n)) && Leading(Dec(w, n), 0) == n
    ensures w > 0 || n > 0 ==> Dec(w, n) != []
    decreases n + w
  {
    if w > 0 || n > 0 {
      var rest := Dec(if w == 0 then 0 else w - 1, n / 10);
      LeadingOfDec(if w == 0 then 0 else w - 1, n / 10);
      LeadingAppend(rest, 48 + n % 10, 0);
    }
  }

  lemma {:induction false} AtoiOfPrint(n: nat)
    requires n <= INT_MAX
    ensures Atoi(Print(n)) == Some(n) && Decimal(Print(n)) && Print(n) != []
  {
    LeadingOfDec(1, n);
    assert SkipSpace(Print(n)) == Print(n) by { assert Decimal(Print(n)); }
  }

  // The shortest decimal: digits with the value n, and no leading zero but for 0.
  lemma {:induction false} PrintIsShortest(n: nat)
    ensures Print(n) != [] && Decimal(Print(n)) && Leading(Print(n), 0) == n
    ensures n > 0 ==> Print(n)[0] != 48
    ensures n == 0 ==> Print(n) == [48]
    decreases n
  {
    LeadingOfDec(1, n);
    if n >= 10 {
      PrintIsShortest(n / 10);
      assert Dec(0, n / 10) == Dec(1, n / 10) by { Wide(0, n / 10); }
    } else {
      assert Dec(0, 0) == [] && Print(n) == [48 + n % 10];
    }
  }

  // --------------------------------------------------------- reading a request

  lemma {:induction false} CrlfAt(b: Bytes, i: nat, c: nat)
    requires i <= c && c + 1 < |b| && b[c] == CR && b[c + 1] == LF
    requires forall j :: i <= j < c ==> b[j] != CR
    ensures FindCrlf(b, i) == Some(c)
    decreases c - i
  {
    if i < c { CrlfAt(b, i + 1, c); }
  }

  // A line of a sign and a number, somewhere in a buffer.
  lemma {:induction false} LineAt(b: Bytes, p: nat, sign: byte, n: nat)
    requires sign != CR && n <= INT_MAX && p + |[sign] + Print(n) + CRLF| <= |b|
    requires b[p..p + |[sign] + Print(n) + CRLF|] == [sign] + Print(n) + CRLF
    ensures var c := p + 1 + |Print(n)|;
      b[p] == sign && FindCrlf(b, p) == Some(c) && b[p + 1..c] == Print(n) && Atoi(b[p + 1..c]) == Some(n)
  {
    AtoiOfPrint(n);
    var line, c := [sign] + Print(n) + CRLF, p + 1 + |Print(n)|;
    hide Print, Atoi;
    assert forall j :: 0 <= j < |line| ==> b[p + j] == b[p..p + |line|][j] == line[j];
    assert b[p + 1..c] == b[p..p + |line|][1..c - p] == line[1..c - p] == Print(n);
    forall j | p <= j < c ensures b[j] != CR {
      assert b[j] == line[j - p];
    }
    assert b[c] == line[c - p] && b[c + 1] == line[c + 1 - p];
    CrlfAt(b, p, c);
  }

  lemma {:induction false} BulkReads(b: Bytes, p: nat, arg: Bytes)
    requires |arg| <= INT_MAX && Occurs(b, p, BulkString(arg))
    ensures BulkAt(b, p) == Got(arg, p + |BulkString(arg)|)
  {
    var head := [DOLLAR] + Print(|arg|) + CRLF;
    hide Print, Atoi, FindCrlf;
    assert BulkString(arg) == head + (arg + CRLF);
    OccursSplit(b, p, head, arg + CRLF);
    OccursSplit(b, p + |head|, arg, CRLF);
    LineAt(b, p, DOLLAR, |arg|);
    var e := p + |head| + |arg|;
    assert b[e] == b[e..e + 2][0] && b[e + 1] == b[e..e + 2][1];
  }

  lemma {:induction false} BulksRead(b: Bytes, p: nat, args: seq<Bytes>, acc: seq<Bytes>)
    requires (forall a <- args :: |a| <= INT_MAX) && Occurs(b, p, Bulks(args))
    ensures Args(b, p, |args|, acc) == Complete(p + |Bulks(args)|, acc + args)
    decreases |args|
  {
    hide BulkString, BulkAt, Occurs;
    if args == [] {
      assert acc + args == acc;
    } else {
      var first, rest := args[0], args[1..];
      OccursSplit(b, p, BulkString(first), Bulks(rest));
      BulkReads(b, p, first);
      BulksRead(b, p + |BulkString(first)|, rest, acc + [first]);
      assert args == [first] + rest;
      Assoc(acc, [first], rest);
    }
  }

  // What was encoded is read back, whatever follows it.
  lemma {:induction false} RoundTrip(args: seq<Bytes>, rest: Bytes)
    requires |args| <= INT_MAX && forall a <- args :: |a| <= INT_MAX
    ensures FrameOf(Encode(args) + rest) == Complete(|Encode(args)|, args)
  {
    var b, head := Encode(args) + rest, [STAR] + Print(|args|) + CRLF;
    AtoiOfPrint(|args|);
    AtStart(head + Bulks(args), rest);
    hide Print, Atoi, FindCrlf, Args, Bulks, Occurs;
    OccursSplit(b, 0, head, Bulks(args));
    HeadReads(b, |args|);
    BulksRead(b, |head|, args, []);
    assert [] + args == args;
  }

  lemma {:induction false} AtStart(s: Bytes, rest: Bytes)
    ensures Occurs(s + rest, 0, s)
  {}

  lemma {:induction false} HeadReads(b: Bytes, n: nat)
    requires n <= INT_MAX && Occurs(b, 0, [STAR] + Print(n) + CRLF)
    ensures var c := 1 + |Print(n)|;
      |b| >= 4 && b[0] == STAR && FindCrlf(b, 0) == Some(c) && Atoi(b[1..c]) == Some(n)
  {
    AtoiOfPrint(n);
    hide Print, Atoi, FindCrlf;
    LineAt(b, 0, STAR, n);
  }

  // The deletion that a timer caused, as it is logged.
  method InternalDel(cmd: Bytes, key: Bytes) returns (raw: Bytes)
    requires |cmd| <= INT_MAX && |key| <= INT_MAX
    ensures FrameOf(raw) == Complete(|raw|, [cmd, key]) && raw == Encode([cmd, key])
  {
    hide Atoi, FindCrlf, Args, FrameOf, Print;
    raw := [STAR, 50] + CRLF + ([DOLLAR] + Print(|cmd|) + CRLF + cmd + CRLF) + ([DOLLAR] + Print(|key|) + CRLF);
    raw := raw + key;
    raw := raw + CRLF;
    TwoArguments(cmd, key);
    Group([STAR, 50] + CRLF, BulkString(cmd), [DOLLAR] + Print(|key|) + CRLF, key, CRLF);
    RoundTrip([cmd, key], []);
    assert Encode([cmd, key]) + [] == Encode([cmd, key]);
  }

  lemma {:induction false} Group(h: Bytes, a: Bytes, b: Bytes, k: Bytes, c: Bytes)
    ensures (((h + a) + b) + k) + c == h + (a + ((b + k) + c))
  {}

  lemma {:induction false} TwoArguments(cmd: Bytes, key: Bytes)
    ensures Encode([cmd, key]) == ([STAR, 50] + CRLF) + (BulkString(cmd) + BulkString(key))
  {
    assert Print(2) == [50] by { assert Dec(0, 0) == []; }
    hide Print, BulkString;
    assert [cmd, key][1..] == [key] && [key][1..] == [];
    assert Bulks([key]) == BulkString(key) + [] == BulkString(key);
  }
}
