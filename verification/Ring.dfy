// The growable ring of bytes that the relay of ebpf_relay.c sends from.
module Ring {
  import opened KvData
  import opened SeqFacts

  // The n bytes from position h on, continuing at the start past the end.
  function Window(b: Bytes, h: nat, n: nat): (r: Bytes)
    requires h < |b| && n <= |b|
    ensures |r| == n
  {
    if h + n <= |b| then b[h..h + n] else b[h..] + b[..h + n - |b|]
  }

  function Wrap(x: nat, size: nat): nat {
    if x < size then x else x - size
  }

  // The size after growing: doubled until it holds what is needed.
  function Doubled(size: nat, need: nat): (r: nat)
    requires size > 0
    ensures r >= size && r >= need
    decreases need - size
  {
    if size >= need then size else Doubled(size * 2, need)
  }

  function Two(k: nat): nat {
    if k == 0 then 1 else 2 * Two(k - 1)
  }

  // The size times a power of two, and no larger one than is needed.
  lemma {:induction false} DoubledIs(size: nat, need: nat) returns (k: nat)
    requires size > 0
    ensures Doubled(size, need) == size * Two(k) >= need
    ensures k > 0 ==> size * Two(k - 1) < need
    decreases need - size
  {
    hide Two;
    NotDoubled(size);
    if size >= need {
      k := 0;
    } else {
      var j := DoubledIs(size * 2, need);
      k := j + 1;
      TwiceAsLarge(size, j);
      if j > 0 { TwiceAsLarge(size, j - 1); }
    }
  }

  lemma {:induction false} NotDoubled(size: nat)
    ensures size * Two(0) == size
  {}

  lemma {:induction false} TwiceAsLarge(size: nat, j: nat)
    ensures size * Two(j + 1) == size * 2 * Two(j)
  {}

  // data copied to position at.
  function Patch(b: Bytes, at: nat, data: Bytes): Bytes
    requires at + |data| <= |b|
  {
    b[..at] + data + b[at + |data|..]
  }

  method MemCpy(dst: array<byte>, at: nat, data: Bytes)
    requires at + |data| <= dst.Length
    modifies dst
    ensures dst[..] == Patch(old(dst[..]), at, data)
  {
    forall i | 0 <= i < |data| { dst[at + i] := data[i]; }
  }

  lemma {:induction false} WrapIsModulo(x: nat, size: nat)
    requires 0 < size && x <= size
    ensures x % size == Wrap(x, size)
  {}

  lemma {:induction false} WindowSplit(b: Bytes, h: nat, n: nat, k: nat)
    requires h < |b| && k <= n <= |b| && (k <= |b| - h)
    ensures Window(b, h, n) == b[h..h + k] + Window(b, Wrap(h + k, |b|), n - k)
  {}

  lemma {:induction false} CopyStep(b: Bytes, h: nat, n: nat, k: nat, d: Bytes, pos: nat)
    requires h < |b| && k <= n <= |b| && k <= |b| - h && pos + k <= |d|
    ensures Patch(d, pos, b[h..h + k])[..pos + k] + Window(b, Wrap(h + k, |b|), n - k)
         == d[..pos] + Window(b, h, n)
    ensures |Patch(d, pos, b[h..h + k])| == |d|
  {
    WindowSplit(b, h, n, k);
    PatchPrefix(d, pos, b[h..h + k]);
    hide Window, Patch;
    Assoc(d[..pos], b[h..h + k], Window(b, Wrap(h + k, |b|), n - k));
  }

  lemma {:induction false} PatchPrefix(d: Bytes, pos: nat, data: Bytes)
    requires pos + |data| <= |d|
    ensures |Patch(d, pos, data)| == |d|
    ensures Patch(d, pos, data)[..pos + |data|] == d[..pos] + data
  {}

  lemma {:induction false} AppendInPlace(b: Bytes, h: nat, n: nat, data: Bytes)
    requires h < |b| && n + |data| <= |b|
    requires var t := Wrap(h + n, |b|); t + |data| <= |b|
    ensures Window(Patch(b, Wrap(h + n, |b|), data), h, n + |data|) == Window(b, h, n) + data
  {}

  // The bytes that fit before the end go there, the rest to the start.
  lemma {:induction false} AppendWrapped(b: Bytes, h: nat, n: nat, data: Bytes, k: nat)
    requires h < |b| && n + |data| <= |b| && h + n + k == |b| && k < |data|
    ensures Window(Patch(Patch(b, h + n, data[..k]), 0, data[k..]), h, n + |data|)
         == Window(b, h, n) + data
  {
    hide Patch, Window;
    PutLast(b, h + n, data[..k], h);
    PutFirst(Patch(b, h + n, data[..k]), data[k..], h);
    var c, m := Patch(Patch(b, h + n, data[..k]), 0, data[k..]), n + |data|;
    WindowWraps(c, h, m);
    WindowPlain(b, h, n);
    assert h + m - |c| == |data[k..]|;
    Assoc(b[h..h + n], data[..k], data[k..]);
    assert data[..k] + data[k..] == data;
  }

  lemma {:induction false} WindowWraps(b: Bytes, h: nat, n: nat)
    requires h < |b| && n <= |b| && h + n > |b|
    ensures Window(b, h, n) == b[h..] + b[..h + n - |b|]
  {}

  lemma {:induction false} WindowPlain(b: Bytes, h: nat, n: nat)
    requires h < |b| && h + n <= |b|
    ensures Window(b, h, n) == b[h..h + n]
  {}

  lemma {:induction false} PutLast(b: Bytes, at: nat, x: Bytes, h: nat)
    requires at + |x| == |b| && h <= at
    ensures |Patch(b, at, x)| == |b| && Patch(b, at, x)[h..] == b[h..at] + x
  {}

  lemma {:induction false} PutFirst(b: Bytes, x: Bytes, h: nat)
    requires |x| <= h <= |b|
    ensures |Patch(b, 0, x)| == |b| && Patch(b, 0, x)[h..] == b[h..] && Patch(b, 0, x)[..|x|] == x
  {}

  class RingBuf {
    var buf: array<byte>
    var head: nat
    var tail: nat
    var bytes: nat

    ghost predicate Valid()
      reads this
    {
      head < buf.Length && bytes <= buf.Length && tail == Wrap(head + bytes, buf.Length)
    }

    ghost function Queued(): (q: Bytes)
      requires Valid()
      reads this, buf
      ensures |q| == bytes
    {
      Window(buf[..], head, bytes)
    }

    constructor (size: nat)
      requires size > 0
      ensures Valid() && fresh(buf) && buf.Length == size && Queued() == []
    {
      buf := new byte[size](i => 0);
      head, tail, bytes := 0, 0, 0;
    }

    // How many bytes lie in one piece at the head; none when the head has met
    // the tail, also when that is because the ring is full.
    function Readable(): (avail: nat)
      requires Valid()
      reads this
      ensures avail <= bytes
      ensures avail == 0 <==> bytes == 0 || bytes == buf.Length
      ensures head + avail <= buf.Length
      ensures 0 < avail < bytes ==> head + avail == buf.Length && head > 0
    {
      if head < tail then tail - head
      else if head > tail then buf.Length - head
      else 0
    }

    method Consume(n: nat)
      requires Valid() && n <= Readable()
      modifies this`head, this`bytes
      ensures Valid() && old(Queued()) == old(buf[head..head + n]) + Queued()
      ensures bytes == old(bytes) - n
      ensures head == Wrap(old(head) + n, buf.Length)
    {
      WindowSplit(buf[..], head, bytes, n);
      head := head + n;
      if head == buf.Length { head := 0; }
      bytes := bytes - n;
    }

    // Copies the queued bytes to the start of dst, one piece at a time.
    method CopyOut(dst: array<byte>)
      requires Valid() && dst != buf && dst.Length >= bytes
      modifies dst
      ensures dst[..bytes] == Queued()
    {
      hide Window, Patch;
      ghost var b := buf[..];
      var pos: nat, remaining: nat, h: nat := 0, bytes, head;
      while remaining > 0
        invariant h < |b| && pos + remaining == bytes
        invariant dst[..][..pos] + Window(b, h, remaining) == Window(b, head, bytes)
      {
        var chunk := buf.Length - h;
        if chunk > remaining { chunk := remaining; }
        CopyStep(b, h, remaining, chunk, dst[..], pos);
        WrapIsModulo(h + chunk, |b|);
        MemCpy(dst, pos, buf[h..h + chunk]);
        pos := pos + chunk;
        h := (h + chunk) % buf.Length;
        remaining := remaining - chunk;
      }
    }

    method Grow(need: nat)
      requires Valid() && need > buf.Length
      modifies this
      ensures Valid() && Queued() == old(Queued()) && fresh(buf)
      ensures buf.Length == Doubled(old(buf.Length) * 2, need)
    {
      var newSize := buf.Length * 2;
      while newSize < need
        invariant newSize > 0 && Doubled(newSize, need) == Doubled(buf.Length * 2, need)
        decreases need - newSize
      {
        newSize := newSize * 2;
      }
      var newBuf := new byte[newSize](i => 0);
      CopyOut(newBuf);
      buf, head, tail := newBuf, 0, bytes;
    }

    // Copies into the free part, in one piece or in two.
    method Append(data: Bytes)
      requires Valid() && bytes + |data| <= buf.Length
      modifies this`tail, this`bytes, buf
      ensures Valid() && Queued() == old(Queued()) + data
    {
      hide Window, Patch;
      var space := buf.Length - tail;
      ghost var b, n := buf[..], bytes;
      bytes := bytes + |data|;
      if |data| <= space {
        AppendInPlace(b, head, n, data);
        MemCpy(buf, tail, data);
        tail := tail + |data|;
        if tail == buf.Length { tail := 0; }
      } else {
        AppendWrapped(b, head, n, data, space);
        MemCpy(buf, tail, data[..space]);
        MemCpy(buf, 0, data[space..]);
        tail := |data| - space;
      }
    }

    method Write(data: Bytes)
      requires Valid()
      modifies this, buf
      ensures Valid() && Queued() == old(Queued()) + data
      ensures buf == old(buf) || fresh(buf)
      ensures buf.Length == if old(bytes) + |data| <= old(buf.Length) then old(buf.Length)
                            else Doubled(old(buf.Length) * 2, old(bytes) + |data|)
      // A write that fills the ring to the last byte leaves nothing to offer.
      ensures old(bytes) + |data| == buf.Length ==> bytes == buf.Length && Readable() == 0
    {
      if bytes + |data| > buf.Length {
        Grow(bytes + |data|);
      }
      Append(data);
    }
  }
}
