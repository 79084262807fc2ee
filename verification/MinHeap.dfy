// The binary heap of expire.c: timers by expiry time, sifted in place.
module MinHeap {
  import opened KvData

  // A timer. The ticket is its number in the order of submission.
  datatype Item = Item(ticket: nat, kind: int, key: Bytes, expire: int)

  function Parent(i: nat): nat
    requires i > 0
  {
    (i - 1) / 2
  }

  predicate InOrder(s: seq<Item>, i: nat)
    requires 0 < i < |s|
  {
    s[Parent(i)].expire <= s[i].expire
  }

  ghost predicate IsHeap(s: seq<Item>) {
    forall i :: 0 < i < |s| ==> InOrder(s, i)
  }

  // All but c is in order with its parent; what is below c is, with c's parent.
  ghost predicate Rising(s: seq<Item>, c: nat) {
    && c < |s|
    && (forall i :: 0 < i < |s| && i != c ==> InOrder(s, i))
    && (forall i :: 0 < i < |s| && Parent(i) == c && c > 0 ==> s[Parent(c)].expire <= s[i].expire)
  }

  // All but the children of c are in order with their parent.
  ghost predicate Sinking(s: seq<Item>, c: nat) {
    && (forall i :: 0 < i < |s| && Parent(i) != c ==> InOrder(s, i))
    && (forall i :: 0 < i < |s| && Parent(i) == c && c > 0 && c < |s| ==> s[Parent(c)].expire <= s[i].expire)
  }

  function Swapped(s: seq<Item>, i: nat, j: nat): (r: seq<Item>)
    requires i < |s| && j < |s|
    ensures |r| == |s|
  {
    s[i := s[j]][j := s[i]]
  }

  lemma {:induction false} SwapKeeps(s: seq<Item>, i: nat, j: nat)
    requires i < |s| && j < |s|
    ensures multiset(Swapped(s, i, j)) == multiset(s)
  {}

  lemma {:induction false} RiseStep(s: seq<Item>, c: nat)
    requires Rising(s, c) && c > 0 && s[c].expire < s[Parent(c)].expire
    ensures Rising(Swapped(s, c, Parent(c)), Parent(c))
  {
    var p := Parent(c);
    var r := Swapped(s, c, p);
    forall i | 0 < i < |r| && i != p ensures InOrder(r, i) {
      if i != c { assert InOrder(s, i); }
    }
    forall i | 0 < i < |r| && Parent(i) == p && p > 0 ensures r[Parent(p)].expire <= r[i].expire {
      assert InOrder(s, p);
      if i != c { assert InOrder(s, i); }
    }
  }

  lemma {:induction false} SinkStep(s: seq<Item>, c: nat, m: nat)
    requires Sinking(s, c) && c < |s| && 0 < m < |s| && Parent(m) == c && s[m].expire < s[c].expire
    requires forall i :: 0 < i < |s| && Parent(i) == c ==> s[m].expire <= s[i].expire
    ensures Sinking(Swapped(s, c, m), m)
  {
    var r := Swapped(s, c, m);
    forall i | 0 < i < |r| && Parent(i) != m ensures InOrder(r, i) {
      if Parent(i) == c {
      } else if i == c {
        assert s[Parent(c)].expire <= s[m].expire;
      } else {
        assert InOrder(s, i);
      }
    }
    forall i | 0 < i < |r| && Parent(i) == m ensures r[Parent(m)].expire <= r[i].expire {
      assert InOrder(s, i);
    }
  }

  lemma {:induction false} RootIsMinimum(s: seq<Item>, i: nat)
    requires IsHeap(s) && i < |s|
    ensures s[0].expire <= s[i].expire
    decreases i
  {
    if i > 0 {
      RootIsMinimum(s, Parent(i));
      assert InOrder(s, i);
    }
  }

  lemma {:induction false} Appended(s: seq<Item>, item: Item)
    requires IsHeap(s)
    ensures Rising(s + [item], |s|)
    ensures multiset(s + [item]) == multiset(s) + multiset{item}
  {
    var t := s + [item];
    forall i | 0 < i < |t| && i != |s| ensures InOrder(t, i) { assert InOrder(s, i); }
  }

  // The last element in the place of the first.
  function Moved(s: seq<Item>): seq<Item>
    requires s != []
  {
    if |s| == 1 then [] else [s[|s| - 1]] + s[1..|s| - 1]
  }

  lemma {:induction false} TakenOut(s: seq<Item>)
    requires IsHeap(s) && s != []
    ensures Sinking(Moved(s), 0)
    ensures multiset(s) == multiset(Moved(s)) + multiset{s[0]}
  {
    var n := |s| - 1;
    if n > 0 {
      assert s == [s[0]] + s[1..n] + [s[n]];
      var t := Moved(s);
      forall i | 0 < i < |t| && Parent(i) != 0 ensures InOrder(t, i) { assert InOrder(s, i); }
    } else {
      assert s == [s[0]];
    }
  }

  lemma {:induction false} RootIsLeast(s: seq<Item>)
    requires IsHeap(s) && s != []
    ensures forall x: Item :: x in multiset(s) ==> s[0].expire <= x.expire
  {
    forall x: Item | x in multiset(s) ensures s[0].expire <= x.expire {
      var i :| 0 <= i < |s| && s[i] == x;
      RootIsMinimum(s, i);
    }
  }

  class MinHeap {
    var data: array<Item>
    var size: nat

    ghost predicate Valid()
      reads this, data
    {
      0 < data.Length && size <= data.Length && IsHeap(data[..size])
    }

    ghost function Items(): multiset<Item>
      requires size <= data.Length
      reads this, data
    {
      multiset(data[..size])
    }

    constructor (initCapacity: int)
      ensures Valid() && Items() == multiset{} && fresh(data)
    {
      var capacity := if initCapacity > 1024 then initCapacity else 1024;
      data := new Item[capacity](i => Item(0, 0, [], 0));
      size := 0;
    }

    method Swap(i: nat, j: nat)
      requires size <= data.Length && i < size && j < size
      modifies data
      ensures data[..size] == Swapped(old(data[..size]), i, j)
      ensures Items() == old(Items())
    {
      SwapKeeps(data[..size], i, j);
      data[i], data[j] := data[j], data[i];
    }

    method Grow()
      requires 0 < data.Length && size <= data.Length
      modifies this`data
      ensures size < data.Length && data[..size] == old(data[..size])
      ensures data == old(data) || fresh(data)
    {
      if size >= data.Length {
        var larger := new Item[data.Length * 2](i => Item(0, 0, [], 0));
        forall i | 0 <= i < size { larger[i] := data[i]; }
        data := larger;
      }
    }

    method Push(item: Item)
      requires Valid()
      modifies this, data
      ensures Valid() && Items() == old(Items()) + multiset{item}
      ensures data == old(data) || fresh(data)
    {
      Grow();
      ghost var s := data[..size];
      data[size] := item;
      size := size + 1;
      Appended(s, item);
      assert data[..size] == s + [item];
      hide IsHeap, Rising;
      SiftUp();
    }

    method SiftUp()
      requires 0 < size <= data.Length && Rising(data[..size], size - 1)
      modifies data
      ensures IsHeap(data[..size]) && Items() == old(Items())
    {
      hide Swapped;
      var curr := size - 1;
      while curr > 0
        invariant 0 <= curr < size && Rising(data[..size], curr) && Items() == old(Items())
        invariant curr == 0 ==> IsHeap(data[..size])
      {
        var parent := (curr - 1) / 2;
        if data[curr].expire >= data[parent].expire { break; }
        RiseStep(data[..size], curr);
        Swap(curr, parent);
        curr := parent;
      }
    }

    // Takes out an item that expires first.
    method Pop() returns (out: Option<Item>)
      requires Valid()
      modifies this`size, data
      ensures Valid()
      ensures out == None <==> old(Items()) == multiset{}
      ensures out == None ==> Items() == old(Items())
      ensures out.Some? ==> old(Items()) == Items() + multiset{out.value}
      ensures out.Some? ==> forall x: Item :: x in old(Items()) ==> out.value.expire <= x.expire
    {
      if size == 0 { return None; }
      ghost var s := data[..size];
      var item := data[0];
      RootIsLeast(s);
      TakenOut(s);
      hide IsHeap, Sinking, Moved;
      RemoveFirst(s);
      SiftDown();
      return Some(item);
    }

    method RemoveFirst(ghost s: seq<Item>)
      requires 0 < size <= data.Length && s == data[..size]
      modifies this`size, data
      ensures size <= data.Length && data[..size] == Moved(s)
    {
      size := size - 1;
      data[0] := data[size];
    }

    method SiftDown()
      requires size <= data.Length && Sinking(data[..size], 0)
      modifies data
      ensures IsHeap(data[..size]) && Items() == old(Items())
    {
      hide Swapped;
      var curr: nat := 0;
      while true
        invariant Sinking(data[..size], curr) && Items() == old(Items())
        invariant curr < size || size == 0
        decreases size - curr
      {
        var smallest := Smallest(curr);
        if smallest == curr { break; }
        SinkStep(data[..size], curr, smallest);
        Swap(curr, smallest);
        curr := smallest;
      }
    }

    // The child of curr that expires first, if it does so before curr.
    method Smallest(curr: nat) returns (smallest: nat)
      requires size <= data.Length && Sinking(data[..size], curr) && (curr < size || size == 0)
      ensures smallest == curr ==> IsHeap(data[..size])
      ensures smallest != curr ==>
        && 0 < smallest < size && Parent(smallest) == curr && data[smallest].expire < data[curr].expire
        && forall i :: 0 < i < size && Parent(i) == curr ==> data[smallest].expire <= data[i].expire
    {
      var left, right := 2 * curr + 1, 2 * curr + 2;
      smallest := curr;
      if left < size && data[left].expire < data[smallest].expire { smallest := left; }
      if right < size && data[right].expire < data[smallest].expire { smallest := right; }
      forall i | 0 < i < size && Parent(i) == curr ensures i == left || i == right {}
      if smallest == curr {
        forall i | 0 < i < size ensures InOrder(data[..size], i) {}
      }
    }
  }
}
