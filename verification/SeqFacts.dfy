// Facts about sequences and finite sets that several components need.
module SeqFacts {

  lemma {:induction false} Assoc<T>(a: seq<T>, b: seq<T>, c: seq<T>)
    ensures (a + b) + c == a + (b + c)
  {}

  // s stands at position p of d.
  ghost predicate Occurs<T>(d: seq<T>, p: nat, s: seq<T>) {
    p + |s| <= |d| && d[p..p + |s|] == s
  }

  lemma {:induction false} OccursSplit<T>(d: seq<T>, p: nat, s: seq<T>, t: seq<T>)
    requires Occurs(d, p, s + t)
    ensures Occurs(d, p, s) && Occurs(d, p + |s|, t)
  {
    assert d[p..p + |s|] == d[p..p + |s + t|][..|s|];
    assert d[p + |s|..p + |s| + |t|] == d[p..p + |s + t|][|s|..];
  }

  ghost function Below(n: nat): (s: set<nat>)
    ensures forall i :: i in s <==> 0 <= i < n
    ensures |s| == n
  {
    if n == 0 then {} else Below(n - 1) + {n - 1}
  }
}
