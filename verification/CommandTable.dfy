// The command table of kvstore.c: names in 64 slots with linear probing, looked
// up in any case.
module CommandTable {
  import opened KvData
  import opened Commands
  import opened SeqFacts
  import Verbs

  const SLOTS: nat := 64
  const FREE: int := -1

  // The slot at distance d from the home of a name.
  function Slot(home: nat, d: nat): (p: nat)
    ensures p < SLOTS
  {
    (home + d) % SLOTS
  }

  ghost function Filled(slots: seq<int>): set<nat> {
    set p: nat | p < |slots| && slots[p] != FREE
  }

  lemma {:induction false} SomeFree(slots: seq<int>) returns (f: nat)
    requires |slots| == SLOTS && |Filled(slots)| < SLOTS
    ensures f < SLOTS && slots[f] == FREE
  {
    hide Below;
    var all := Below(SLOTS);
    assert Filled(slots) <= all && |all - Filled(slots)| == |all| - |Filled(slots)|;
    f :| f in all - Filled(slots);
  }

  // Every slot is at some distance below 64 from every home.
  lemma {:induction false} Distance(home: nat, p: nat) returns (d: nat)
    requires p < SLOTS
    ensures d < SLOTS && Slot(home, d) == p
  {
    d := (p - home) % SLOTS;
    assert (home + d) % SLOTS == p by { DistanceIs(home, p, d); }
  }

  lemma {:induction false} DistanceIs(home: nat, p: nat, d: nat)
    requires p < SLOTS && d == (p - home) % SLOTS
    ensures (home + d) % SLOTS == p
  {}

  // Entry i stands at distance d from its home, behind full slots only.
  ghost predicate Stands(slots: seq<int>, home: nat, i: int, d: nat)
    requires |slots| == SLOTS
  {
    d < SLOTS && slots[Slot(home, d)] == i && forall e: nat :: e < d ==> slots[Slot(home, e)] != FREE
  }

  ghost predicate Present(slots: seq<int>, home: nat, i: int)
    requires |slots| == SLOTS
  {
    exists d: nat :: Stands(slots, home, i, d)
  }

  class CommandTable {
    const names: seq<string>
    const hashOf: string -> nat
    const slots: array<int>

    // The first n names have been entered.
    ghost predicate Entered(n: nat)
      reads slots
    {
      && slots.Length == SLOTS && n <= |names| < SLOTS
      && |Filled(slots[..])| == n
      && (forall p :: 0 <= p < SLOTS ==> FREE <= slots[p] < n)
      && (forall i :: 0 <= i < n ==> Present(slots[..], hashOf(names[i]), i))
    }

    // kvs_cmd_init.
    constructor (names: seq<string>, hashOf: string -> nat)
      requires |names| < SLOTS
      ensures this.names == names && this.hashOf == hashOf && fresh(slots) && Entered(|names|)
    {
      this.names, this.hashOf := names, hashOf;
      slots := new int[SLOTS](i => FREE);
      new;
      assert Filled(slots[..]) == {};
      var i := 0;
      while i < |names|
        invariant 0 <= i <= |names| && Entered(i)
      {
        Enter(i);
        i := i + 1;
      }
    }

    method Enter(i: nat)
      requires i < |names| && Entered(i)
      modifies slots
      ensures Entered(i + 1)
    {
      var home := hashOf(names[i]);
      var d := FirstFree(home);
      ghost var before := slots[..];
      slots[Slot(home, d)] := i;
      ghost var after := slots[..];
      assert after == before[Slot(home, d) := i];
      assert Filled(after) == Filled(before) + {Slot(home, d)} && Slot(home, d) !in Filled(before);
      forall j | 0 <= j < i + 1 ensures Present(slots[..], hashOf(names[j]), j) {
        if j == i {
          assert Stands(after, home, i, d);
        } else {
          assert Present(before, hashOf(names[j]), j);
          var e: nat :| Stands(before, hashOf(names[j]), j, e);
          assert Stands(after, hashOf(names[j]), j, e);
        }
      }
    }

    method FirstFree(home: nat) returns (d: nat)
      requires slots.Length == SLOTS && |Filled(slots[..])| < SLOTS
      ensures d < SLOTS && slots[Slot(home, d)] == FREE
      ensures forall e: nat :: e < d ==> slots[Slot(home, e)] != FREE
    {
      ghost var f := SomeFree(slots[..]);
      ghost var k := Distance(home, f);
      d := 0;
      while slots[Slot(home, d)] != FREE
        invariant d <= k && forall e: nat :: e < d ==> slots[Slot(home, e)] != FREE
        decreases k - d
      {
        d := d + 1;
      }
    }

    // A name is found, in whatever case it is written, exactly if it is there.
    method Lookup(name: Bytes) returns (r: int)
      requires Entered(|names|)
      ensures r == -1 <==> Name(name) !in names
      ensures r != -1 ==> 0 <= r < |names| && names[r] == Name(name)
      // With names in capitals: letter by letter, in either case.
      ensures (forall n <- names :: Verbs.Capitals(n)) ==>
        (r == -1 <==> forall n <- names :: !Verbs.Spells(name, n)) && (r != -1 ==> Verbs.Spells(name, names[r]))
    {
      forall n | n in names && Verbs.Capitals(n) ensures Name(name) == n <==> Verbs.Spells(name, n) {
        Verbs.NameSpells(name, n);
      }
      var home, wanted := hashOf(Name(name)), Name(name);
      ghost var f := SomeFree(slots[..]);
      ghost var k := Distance(home, f);
      var d := 0;
      while slots[Slot(home, d)] != FREE
        invariant d <= k
        invariant forall e: nat :: e < d ==> slots[Slot(home, e)] != FREE && names[slots[Slot(home, e)]] != wanted
        decreases k - d
      {
        if names[slots[Slot(home, d)]] == wanted { return slots[Slot(home, d)]; }
        d := d + 1;
      }
      forall i | 0 <= i < |names| ensures names[i] != wanted {
        assert Present(slots[..], hashOf(names[i]), i);
        var e: nat :| Stands(slots[..], hashOf(names[i]), i, e);
      }
      return -1;
    }
  }
}
