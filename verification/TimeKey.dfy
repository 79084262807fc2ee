// The keys of the time index: a timestamp padded to 15 digits, a colon, an id
// (kvs_skiptable.c).
module TimeKey {
  import opened KvData

  const DIGITS: nat := 15
  const COLON: byte := 58
  const MINUS: byte := 45

  function Pow10(w: nat): (p: nat)
    ensures p > 0
  {
    if w == 0 then 1 else 10 * Pow10(w - 1)
  }

  // n in decimal, with leading zeros up to w digits.
  function Dec(w: nat, n: nat): Bytes
    decreases n + w
  {
    if w == 0 && n == 0 then []
    else Dec(if w == 0 then 0 else w - 1, n / 10) + [48 + n % 10]
  }

  // "%015lld"
  function Stamp(ts: int): (s: Bytes)
    ensures |s| >= DIGITS
  {
    if ts >= 0 then AtLeast(DIGITS, ts); Dec(DIGITS, ts)
    else AtLeast(DIGITS - 1, -ts); [MINUS] + Dec(DIGITS - 1, -ts)
  }

  // It fits in 15 characters.
  predicate Fits(ts: int) {
    if ts >= 0 then ts < Pow10(DIGITS) else -ts < Pow10(DIGITS - 1)
  }

  function Key(ts: int, id: Bytes): Bytes {
    Stamp(ts) + [COLON] + id
  }

  lemma {:induction false} DecLength(w: nat, n: nat)
    requires n < Pow10(w)
    ensures |Dec(w, n)| == w
  {
    if w > 0 { DecLength(w - 1, n / 10); }
  }

  // ------------------------------------------------------------------ order

  lemma {:induction false} MemCmpSplit(a: Bytes, b: Bytes, c: Bytes, d: Bytes, k: nat)
    requires |a| == |b| && k <= |c| && k <= |d|
    ensures MemCmp(a + c, b + d, |a| + k) ==
      if MemCmp(a, b, |a|) != 0 then MemCmp(a, b, |a|) else MemCmp(c, d, k)
  {
    if a == [] {
      assert a + c == c && b + d == d;
    } else {
      MemCmpSplit(a[1..], b[1..], c, d, k);
      assert (a + c)[1..] == a[1..] + c && (b + d)[1..] == b[1..] + d;
    }
  }

  lemma {:induction false} ComparePrefixed(p: Bytes, q: Bytes, a: Bytes, b: Bytes)
    requires |p| == |q|
    ensures Compare(p + a, q + b) == if MemCmp(p, q, |p|) != 0 then MemCmp(p, q, |p|) else Compare(a, b)
  {
    MemCmpSplit(p, q, a, b, if |a| < |b| then |a| else |b|);
  }

  // Numbers of the same width compare as their digits.
  lemma {:induction false} DecOrder(w: nat, m: nat, n: nat)
    requires m < Pow10(w) && n < Pow10(w)
    ensures |Dec(w, m)| == |Dec(w, n)| == w
    ensures MemCmp(Dec(w, m), Dec(w, n), w) < 0 <==> m < n
    ensures MemCmp(Dec(w, m), Dec(w, n), w) == 0 <==> m == n
  {
    DecLength(w, m);
    DecLength(w, n);
    if w > 0 {
      DecOrder(w - 1, m / 10, n / 10);
      MemCmpSplit(Dec(w - 1, m / 10), Dec(w - 1, n / 10), [48 + m % 10], [48 + n % 10], 1);
    }
  }

  // The order of the stamps: two negative ones compare by size.
  predicate Before(s: int, t: int) {
    if s < 0 && t < 0 then s > t else s < t
  }

  lemma {:induction false} StampOrder(s: int, t: int)
    requires Fits(s) && Fits(t)
    ensures |Stamp(s)| == |Stamp(t)| == DIGITS
    ensures MemCmp(Stamp(s), Stamp(t), DIGITS) == 0 <==> s == t
    ensures MemCmp(Stamp(s), Stamp(t), DIGITS) < 0 <==> Before(s, t)
  {
    hide Dec, Pow10;
    if s >= 0 && t >= 0 {
      DecOrder(DIGITS, s, t);
    } else if s < 0 && t < 0 {
      DecOrder(DIGITS - 1, -s, -t);
      DecOrder(DIGITS - 1, -t, -s);
      MinusFirst(Dec(DIGITS - 1, -s), Dec(DIGITS - 1, -t));
    } else if s < 0 {
      DecLength(DIGITS - 1, -s);
      FirstDigit(t);
    } else {
      DecLength(DIGITS - 1, -t);
      FirstDigit(s);
    }
  }

  lemma {:induction false} MinusFirst(a: Bytes, b: Bytes)
    requires |a| == |b|
    ensures MemCmp([MINUS] + a, [MINUS] + b, 1 + |a|) == MemCmp(a, b, |a|)
  {
    MemCmpSplit([MINUS], [MINUS], a, b, |a|);
  }

  lemma {:induction false} FirstDigit(n: nat)
    requires n < Pow10(DIGITS)
    ensures |Dec(DIGITS, n)| == DIGITS && Dec(DIGITS, n)[0] >= 48
  {
    DecLength(DIGITS, n);
    AllDigits(DIGITS, n, 0);
  }

  lemma {:induction false} AllDigits(w: nat, n: nat, i: nat)
    requires i < |Dec(w, n)|
    ensures 48 <= Dec(w, n)[i] < 58
    decreases n + w
  {
    var rest := Dec(if w == 0 then 0 else w - 1, n / 10);
    if i < |rest| { AllDigits(if w == 0 then 0 else w - 1, n / 10, i); }
  }

  // Key order is the order of (timestamp, id), unless two timestamps are both
  // negative: those come in reverse.
  lemma {:induction false} KeyOrder(s: int, a: Bytes, t: int, b: Bytes)
    requires Fits(s) && Fits(t)
    ensures Compare(Key(s, a), Key(t, b)) < 0 <==>
      (if s == t then Compare(a, b) < 0 else Before(s, t))
  {
    StampOrder(s, t);
    ComparePrefixed(Stamp(s), Stamp(t), [COLON] + a, [COLON] + b);
    ComparePrefixed([COLON], [COLON], a, b);
    assert Key(s, a) == Stamp(s) + ([COLON] + a) && Key(t, b) == Stamp(t) + ([COLON] + b);
  }

  // ---------------------------------------------------------------- reading

  function Value(s: Bytes): nat {
    if s == [] then 0
    else 10 * Value(s[..|s| - 1]) + if s[|s| - 1] < 48 then 0 else s[|s| - 1] - 48
  }

  predicate Decimal(s: Bytes) {
    forall i :: 0 <= i < |s| ==> 48 <= s[i] < 58
  }

  lemma {:induction false} ValueOfDec(w: nat, n: nat)
    requires n < Pow10(w)
    ensures Value(Dec(w, n)) == n && Decimal(Dec(w, n))
  {
    if w > 0 {
      ValueOfDec(w - 1, n / 10);
      assert Dec(w, n)[..|Dec(w, n)| - 1] == Dec(w - 1, n / 10);
    }
  }

  lemma {:induction false} DecOfValue(s: Bytes)
    requires Decimal(s)
    ensures Value(s) < Pow10(|s|) && Dec(|s|, Value(s)) == s
  {
    if s != [] {
      var init := s[..|s| - 1];
      DecOfValue(init);
      assert s == init + [s[|s| - 1]];
    }
  }

  // A key that the time index made, of a timestamp that fits in 15 digits.
  predicate IsTimeKey(k: Bytes) {
    |k| > DIGITS && Decimal(k[..DIGITS]) && k[DIGITS] == COLON
  }

  function TimeOf(k: Bytes): nat
    requires IsTimeKey(k)
  {
    Value(k[..DIGITS])
  }

  function IdOf(k: Bytes): Bytes {
    if |k| > DIGITS then k[DIGITS + 1..] else []
  }

  lemma {:induction false} KeyRoundTrip(ts: int, id: Bytes)
    requires 0 <= ts < Pow10(DIGITS)
    ensures IsTimeKey(Key(ts, id)) && TimeOf(Key(ts, id)) == ts && IdOf(Key(ts, id)) == id
    ensures |Key(ts, id)| == 16 + |id| && Key(ts, id)[15] == 58 && Decimal(Key(ts, id)[..15])
  {
    ValueOfDec(DIGITS, ts);
    DecLength(DIGITS, ts);
    assert Key(ts, id)[..DIGITS] == Stamp(ts);
  }

  lemma {:induction false} TimeKeyIsKey(k: Bytes)
    requires IsTimeKey(k)
    ensures TimeOf(k) < Pow10(DIGITS) && k == Key(TimeOf(k), IdOf(k))
  {
    DecOfValue(k[..DIGITS]);
    assert k == k[..DIGITS] + [k[DIGITS]] + k[DIGITS + 1..];
  }

  // strncmp: a NUL in both strings ends them.
  function StrNCmp(a: Bytes, b: Bytes, n: nat): int
    requires n <= |a| && n <= |b|
  {
    if n == 0 then 0
    else if a[0] != b[0] then a[0] - b[0]
    else if a[0] == 0 then 0
    else StrNCmp(a[1..], b[1..], n - 1)
  }

  lemma {:induction false} StrNCmpIsMemCmp(a: Bytes, b: Bytes, n: nat)
    requires n <= |a| && n <= |b| && forall i :: 0 <= i < n ==> b[i] != 0
    ensures StrNCmp(a, b, n) == MemCmp(a, b, n)
  {
    if n > 0 && a[0] == b[0] {
      forall i | 0 <= i < n - 1 ensures b[1..][i] != 0 { assert b[1..][i] == b[i + 1]; }
      StrNCmpIsMemCmp(a[1..], b[1..], n - 1);
    }
  }

  // A stamp has no NUL, so a bound is compared byte by byte whatever the key is.
  lemma {:induction false} BoundIsBytes(k: Bytes, bound: int)
    requires |k| >= DIGITS
    ensures StrNCmp(k, Stamp(bound), DIGITS) == MemCmp(k, Stamp(bound), DIGITS)
  {
    hide Dec, StrNCmp;
    forall i | 0 <= i < |Stamp(bound)| ensures Stamp(bound)[i] != 0 {
      if bound >= 0 {
        AllDigits(DIGITS, bound, i);
      } else if i > 0 {
        AllDigits(DIGITS - 1, -bound, i - 1);
      }
    }
    StrNCmpIsMemCmp(k, Stamp(bound), DIGITS);
  }

  // Behind a key that is past a bound every key is.
  lemma {:induction false} PastStaysPast(a: Bytes, b: Bytes, d: Bytes, n: nat)
    requires n <= |a| && n <= |b| && n <= |d| && Compare(a, b) < 0 && MemCmp(a, d, n) > 0
    ensures MemCmp(b, d, n) > 0
  {
    if a[0] == b[0] == d[0] { PastStaysPast(a[1..], b[1..], d[1..], n - 1); }
  }

  // The timestamp that the first 15 characters of a bound stand for: the bound,
  // or of a bound of more than 15 digits its first 15.
  function Cut(bound: int): int {
    if bound < Pow10(DIGITS) then bound else Cut(bound / 10)
  }

  // A key's timestamp is compared with the bound cut to 15 digits.
  lemma {:induction false} BoundCompares(k: Bytes, bound: int)
    requires IsTimeKey(k)
    ensures MemCmp(k, Stamp(bound), DIGITS) < 0 <==> TimeOf(k) < Cut(bound)
    ensures MemCmp(k, Stamp(bound), DIGITS) > 0 <==> TimeOf(k) > Cut(bound)
  {
    hide Dec, Pow10;
    if bound >= 0 {
      var more := CutStamp(bound);
      DecLength(DIGITS, Cut(bound));
      DigitsCompare(k, Cut(bound), more);
    } else {
      assert Stamp(bound)[0] == MINUS && k[0] == k[..DIGITS][0] >= 48;
    }
  }

  lemma {:induction false} DigitsCompare(k: Bytes, n: nat, more: Bytes)
    requires IsTimeKey(k) && n < Pow10(DIGITS) && |Dec(DIGITS, n)| == DIGITS
    ensures MemCmp(k, Dec(DIGITS, n) + more, DIGITS) < 0 <==> TimeOf(k) < n
    ensures MemCmp(k, Dec(DIGITS, n) + more, DIGITS) > 0 <==> TimeOf(k) > n
  {
    hide Dec, Pow10;
    var p := k[..DIGITS];
    DecOfValue(p);
    DecOrder(DIGITS, Value(p), n);
    MemCmpSplit(p, Dec(DIGITS, n), k[DIGITS..], more, 0);
    assert k == p + k[DIGITS..];
  }

  lemma {:induction false} AtLeast(w: nat, n: nat)
    ensures |Dec(w, n)| >= w
    decreases w
  {
    if w > 0 { AtLeast(w - 1, n / 10); }
  }

  // A digit too many is cut off.
  lemma {:induction false} CutOne(n: nat)
    requires n >= Pow10(DIGITS)
    ensures n / 10 >= Pow10(DIGITS - 1) && Cut(n) == Cut(n / 10)
    ensures Dec(DIGITS, n) == Dec(DIGITS, n / 10) + [48 + n % 10]
  {
    Wide(DIGITS - 1, n / 10);
  }

  lemma {:induction false} CutStamp(n: nat) returns (more: Bytes)
    ensures 0 <= Cut(n) < Pow10(DIGITS) && Dec(DIGITS, n) == Dec(DIGITS, Cut(n)) + more
    decreases n
  {
    hide Dec, Pow10;
    if n < Pow10(DIGITS) {
      more := [];
    } else {
      CutOne(n);
      var init := CutStamp(n / 10);
      more := init + [48 + n % 10];
    }
  }

  lemma {:induction false} Wide(w: nat, n: nat)
    requires n >= Pow10(w)
    ensures Dec(w, n) == Dec(w + 1, n)
    decreases w
  {
    if w > 0 { Wide(w - 1, n / 10); }
  }

  // A bound with j digits too many acts as its whole part in units of 10^j,
  // which is between 10^14 and 10^15.
  lemma {:induction false} LongBound(bound: nat) returns (j: nat)
    requires bound >= Pow10(DIGITS)
    ensures j > 0 && |Stamp(bound)| == DIGITS + j
    ensures Pow10(DIGITS - 1) <= Cut(bound) < Pow10(DIGITS)
    ensures Cut(bound) * Pow10(j) <= bound < (Cut(bound) + 1) * Pow10(j)
    decreases bound
  {
    hide Dec, Pow10;
    var tenth := bound / 10;
    CutOne(bound);
    if tenth < Pow10(DIGITS) {
      DecLength(DIGITS, tenth);
      j := 1;
      TenTimes(1, 0);
      NoTens();
    } else {
      var i := LongBound(tenth);
      j := i + 1;
      TenTimes(Cut(bound), i);
      TenTimes(Cut(bound) + 1, i);
    }
  }

  lemma {:induction false} NoTens()
    ensures Pow10(0) == 1
  {}

  lemma {:induction false} TenTimes(a: int, i: nat)
    ensures a * Pow10(i + 1) == 10 * (a * Pow10(i))
  {}

  // -------------------------------------------------- timestamps from 10^15 on

  // The key has digits where the colon should be, so it is not read as an entry,
  // and what is taken for its id has a colon more at least.
  lemma {:induction false} LateKey(ts: nat, id: Bytes)
    requires ts >= Pow10(DIGITS)
    ensures |Key(ts, id)| > DIGITS && !IsTimeKey(Key(ts, id)) && |IdOf(Key(ts, id))| >= |id| + 1
  {
    hide Dec, Pow10, Cut;
    var j := LongBound(ts);
    AllDigits(DIGITS, ts, DIGITS);
    assert Key(ts, id)[DIGITS] == Stamp(ts)[DIGITS] == Dec(DIGITS, ts)[DIGITS];
  }

  lemma {:induction false} NegativeKey(ts: int, id: Bytes)
    requires ts < 0
    ensures !IsTimeKey(Key(ts, id))
  {
    var k := Key(ts, id);
    assert Stamp(ts)[0] == MINUS;
    if |k| > DIGITS { assert k[..DIGITS][0] == k[0] == Stamp(ts)[0] == MINUS; }
  }

  // A key is one of the index, and gives its timestamp and id back, exactly for
  // timestamps of up to 15 digits that are not negative.
  lemma {:induction false} ReadsBackWhen(ts: int, id: Bytes)
    ensures IsTimeKey(Key(ts, id)) <==> 0 <= ts < Pow10(DIGITS)
    ensures ts >= 0 ==> (IdOf(Key(ts, id)) == id <==> ts < Pow10(DIGITS))
  {
    if ts < 0 {
      NegativeKey(ts, id);
    } else if ts < Pow10(DIGITS) {
      KeyRoundTrip(ts, id);
    } else {
      LateKey(ts, id);
    }
  }

  // Among entries, such a key stands by its first 15 digits: before all entries
  // of that time and later ones, although all of them are earlier.
  lemma {:induction false} LateKeySorts(k: Bytes, ts: nat, id: Bytes)
    requires IsTimeKey(k) && ts >= Pow10(DIGITS)
    ensures TimeOf(k) < ts
    ensures Compare(k, Key(ts, id)) < 0 <==> TimeOf(k) < Cut(ts)
  {
    hide Dec, Pow10, Cut, Compare;
    TimeKeyIsKey(k);
    var j := LongBound(ts);
    var s, p, more := Stamp(ts), k[..DIGITS], Stamp(ts)[DIGITS..];
    AllDigits(DIGITS, ts, DIGITS);
    BoundCompares(k, ts);
    MemCmpSplit(p, s[..DIGITS], k[DIGITS..], more, 0);
    assert k == p + k[DIGITS..] && s == s[..DIGITS] + more;
    ComparePrefixed(p, s[..DIGITS], k[DIGITS..], more + [COLON] + id);
    assert Key(ts, id) == s[..DIGITS] + (more + [COLON] + id);
    assert k[DIGITS..][0] == COLON && (more + [COLON] + id)[0] == s[DIGITS];
    FirstByte(k[DIGITS..], more + [COLON] + id);
  }

  lemma {:induction false} FirstByte(a: Bytes, b: Bytes)
    requires a != [] && b != [] && a[0] > b[0]
    ensures Compare(a, b) > 0
  {}
}
