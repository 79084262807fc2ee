// The id lists that kvs_hash_append and kvs_hash_get_list keep in a value of the
// hash table: ids joined by commas (kvs_hash.c).
module IdList {
  import opened KvData
  import opened SeqFacts

  const COMMA: byte := 44

  // Where the token that starts at i ends.
  function TokenEnd(v: Bytes, i: nat): (j: nat)
    requires i <= |v|
    ensures i <= j <= |v| && (j < |v| ==> v[j] == COMMA)
    ensures forall k :: i <= k < j ==> v[k] != COMMA
    decreases |v| - i
  {
    if i == |v| || v[i] == COMMA then i else TokenEnd(v, i + 1)
  }

  // The tokens from position i on.
  function Split(v: Bytes, i: nat): (ids: seq<Bytes>)
    requires i <= |v|
    ensures ids != []
    decreases |v| - i
  {
    var j := TokenEnd(v, i);
    if j == |v| then [v[i..j]] else [v[i..j]] + Split(v, j + 1)
  }

  function Join(ids: seq<Bytes>): Bytes {
    if ids == [] then []
    else if |ids| == 1 then ids[0]
    else Join(ids[..|ids| - 1]) + [COMMA] + ids[|ids| - 1]
  }

  predicate Proper(id: Bytes) {
    id != [] && COMMA !in id
  }

  // What an append makes of a value; None is the error of an empty id.
  function Append(prev: Option<Bytes>, id: Bytes): Option<Bytes> {
    if id == [] then None
    else if prev == None || prev.value == [] then Some(id)
    else if id in Split(prev.value, 0) then prev
    else Some(prev.value + [COMMA] + id)
  }

  lemma {:induction false} TokenEndIs(v: Bytes, i: nat, j: nat)
    requires i <= j <= |v| && (j < |v| ==> v[j] == COMMA)
    requires forall k :: i <= k < j ==> v[k] != COMMA
    ensures TokenEnd(v, i) == j
  {}

  // A comma and a token more at the end.
  lemma {:induction false} SplitMore(v: Bytes, i: nat, id: Bytes)
    requires i <= |v| && COMMA !in id
    ensures Split(v + [COMMA] + id, i) == Split(v, i) + [id]
    decreases |v| - i
  {
    var w, j := v + [COMMA] + id, TokenEnd(v, i);
    TokenKept(v, i, id);
    if j == |v| { LastToken(v, id); } else { SplitMore(v, j + 1, id); }
    SplitBoth(v, w, i, j, id);
  }

  lemma {:induction false} SplitBoth(v: Bytes, w: Bytes, i: nat, j: nat, id: Bytes)
    requires i <= |v| < |w| && TokenEnd(v, i) == TokenEnd(w, i) == j && w[i..j] == v[i..j]
    requires Split(w, j + 1) == if j == |v| then [id] else Split(v, j + 1) + [id]
    ensures Split(w, i) == Split(v, i) + [id]
  {
    hide Split, TokenEnd;
    SplitIs(v, i);
    SplitIs(w, i);
    if j < |v| { Assoc([v[i..j]], Split(v, j + 1), [id]); }
  }

  lemma {:induction false} SplitIs(v: Bytes, i: nat)
    requires i <= |v|
    ensures var j := TokenEnd(v, i);
      Split(v, i) == if j == |v| then [v[i..j]] else [v[i..j]] + Split(v, j + 1)
  {}

  lemma {:induction false} TokenKept(v: Bytes, i: nat, id: Bytes)
    requires i <= |v|
    ensures var w, j := v + [COMMA] + id, TokenEnd(v, i); TokenEnd(w, i) == j && w[i..j] == v[i..j]
  {
    TokenEndIs(v + [COMMA] + id, i, TokenEnd(v, i));
  }

  lemma {:induction false} LastToken(v: Bytes, id: Bytes)
    requires COMMA !in id
    ensures Split(v + [COMMA] + id, |v| + 1) == [id]
  {
    var w, p := v + [COMMA] + id, |v| + 1;
    forall k | p <= k < |w| ensures w[k] != COMMA { assert w[k] == id[k - p]; }
    TokenEndIs(w, p, |w|);
    assert w[p..|w|] == id;
  }

  // Splitting undoes joining.
  lemma {:induction false} SplitOfJoin(ids: seq<Bytes>)
    requires ids != [] && forall id <- ids :: Proper(id)
    ensures Join(ids) != [] && Split(Join(ids), 0) == ids
  {
    if |ids| == 1 {
      var id := ids[0];
      assert Proper(id);
      TokenEndIs(id, 0, |id|);
      assert id[0..|id|] == id && ids == [id];
    } else {
      var n := |ids| - 1;
      SplitOfJoin(ids[..n]);
      assert Proper(ids[n]);
      SplitMore(Join(ids[..n]), 0, ids[n]);
      assert ids[..n] + [ids[n]] == ids;
    }
  }

  // The distinct ids of a sequence of appends, in the order of their first one.
  function Distinct(appends: seq<Bytes>): (r: seq<Bytes>)
    ensures forall id :: id in r <==> id in appends
  {
    if appends == [] then []
    else
      var n := |appends| - 1;
      var before := Distinct(appends[..n]);
      assert appends == appends[..n] + [appends[n]];
      if appends[n] in before then before else before + [appends[n]]
  }

  function AppendAll(appends: seq<Bytes>): Option<Bytes> {
    if appends == [] then None
    else
      var n := |appends| - 1;
      Append(AppendAll(appends[..n]), appends[n])
  }

  // After any appends the list holds each id once, in first-append order.
  lemma {:induction false} AppendsList(appends: seq<Bytes>)
    requires appends != [] && forall id <- appends :: Proper(id)
    ensures Distinct(appends) != [] && AppendAll(appends) == Some(Join(Distinct(appends)))
    ensures Split(AppendAll(appends).value, 0) == Distinct(appends)
  {
    var n := |appends| - 1;
    var id := appends[n];
    assert Proper(id);
    if n == 0 {
      assert appends[..0] == [];
      assert Distinct(appends) == [id];
    } else {
      AppendsList(appends[..n]);
      var before := Distinct(appends[..n]);
      SplitOfJoin(before);
      if id !in before {
        assert (before + [id])[..|before|] == before;
      }
    }
    SplitOfJoin(Distinct(appends));
  }

  lemma {:induction false} DistinctHasNoDoubles(appends: seq<Bytes>)
    ensures forall i, j :: 0 <= i < j < |Distinct(appends)| ==> Distinct(appends)[i] != Distinct(appends)[j]
  {
    if appends != [] { DistinctHasNoDoubles(appends[..|appends| - 1]); }
  }

  // Appends to any keys: a key and an id each.
  function Index(ops: seq<(Bytes, Bytes)>): map<Bytes, Bytes> {
    if ops == [] then map[]
    else
      var n := |ops| - 1;
      var m, (k, id) := Index(ops[..n]), ops[n];
      var v := Append(if k in m then Some(m[k]) else None, id);
      if v == None then m else m[k := v.value]
  }

  // The ids that were appended to one key.
  function IdsFor(ops: seq<(Bytes, Bytes)>, k: Bytes): seq<Bytes> {
    if ops == [] then []
    else
      var n := |ops| - 1;
      IdsFor(ops[..n], k) + if ops[n].0 == k then [ops[n].1] else []
  }

  lemma {:induction false} IndexIs(ops: seq<(Bytes, Bytes)>, k: Bytes)
    requires forall op <- ops :: Proper(op.1)
    ensures k in Index(ops) <==> IdsFor(ops, k) != []
    ensures forall id <- IdsFor(ops, k) :: Proper(id)
    ensures (if k in Index(ops) then Some(Index(ops)[k]) else None) == AppendAll(IdsFor(ops, k))
  {
    hide Split, TokenEnd, AppendAll;
    if ops == [] {
      NoAppends();
    } else {
      var n := |ops| - 1;
      var (j, id) := ops[n];
      IndexIs(ops[..n], k);
      assert ops[n] in ops;
      AppendMore(IdsFor(ops[..n], k), id);
      var m := Index(ops[..n]);
      var v := Append(if j in m then Some(m[j]) else None, id);
      assert v.Some?;
      hide Append, AppendAll;
      assert Index(ops) == m[j := v.value];
      if j != k { assert IdsFor(ops, k) == IdsFor(ops[..n], k); }
    }
  }

  lemma {:induction false} NoAppends()
    ensures AppendAll([]) == None
  {}

  lemma {:induction false} AppendMore(appends: seq<Bytes>, id: Bytes)
    ensures AppendAll(appends + [id]) == Append(AppendAll(appends), id)
  {
    assert (appends + [id])[..|appends|] == appends;
  }

  // Each key lists its own ids, once each and in first-append order, whatever
  // was appended to other keys in between.
  lemma {:induction false} EachKeyListsItsOwn(ops: seq<(Bytes, Bytes)>, k: Bytes)
    requires forall op <- ops :: Proper(op.1)
    ensures k in Index(ops) <==> IdsFor(ops, k) != []
    ensures k in Index(ops) ==> Split(Index(ops)[k], 0) == Distinct(IdsFor(ops, k))
  {
    hide Split, Distinct, AppendAll, Index, IdsFor;
    IndexIs(ops, k);
    if IdsFor(ops, k) != [] { AppendsList(IdsFor(ops, k)); }
  }

  // ------------------------------------------------------------------ loops

  // The scan for duplicates.
  method HasToken(v: Bytes, id: Bytes) returns (found: bool)
    requires id != []
    ensures found == (v != [] && id in Split(v, 0))
  {
    if v == [] { return false; }
    var i := 0;
    while i < |v|
      invariant 0 <= i <= |v| + 1
      invariant i <= |v| ==> (id in Split(v, 0) <==> id in Split(v, i))
      invariant i == |v| + 1 ==> id !in Split(v, 0)
    {
      var j := i;
      while j < |v| && v[j] != COMMA
        invariant i <= j <= |v| && forall k :: i <= k < j ==> v[k] != COMMA
      {
        j := j + 1;
      }
      TokenEndIs(v, i, j);
      if v[i..j] == id { return true; }
      i := j + 1;
    }
    if i == |v| { assert Split(v, i) == [v[i..i]] && v[i..i] == []; }
    return false;
  }

  // kvs_hash_get_list: cut at each comma and at the end.
  method GetList(v: Option<Bytes>) returns (ids: seq<Bytes>)
    ensures ids == if v == None || v.value == [] then [] else Split(v.value, 0)
  {
    if v == None || v.value == [] { return []; }
    var data := v.value;
    hide Split, TokenEnd;
    ids := [];
    ghost var todo := Split(data, 0);
    var start, i := 0, 0;
    while i <= |data|
      invariant 0 <= start <= i <= |data| + 1
      invariant ids + todo == Split(data, 0)
      invariant if start <= |data| then todo == Split(data, start) else todo == []
      invariant start <= |data| ==> i <= |data| && forall k :: start <= k < i ==> data[k] != COMMA
    {
      if i == |data| || data[i] == COMMA {
        ghost var rest := NextToken(data, start, i, ids);
        ids := ids + [data[start..i]];
        start, todo := i + 1, rest;
      }
      i := i + 1;
    }
  }

  lemma {:induction false} NextToken(v: Bytes, i: nat, j: nat, ids: seq<Bytes>) returns (rest: seq<Bytes>)
    requires i <= j <= |v| && (j < |v| ==> v[j] == COMMA)
    requires forall k :: i <= k < j ==> v[k] != COMMA
    ensures if j < |v| then rest == Split(v, j + 1) else rest == []
    ensures ids + Split(v, i) == (ids + [v[i..j]]) + rest
  {
    TokenEndIs(v, i, j);
    rest := if j < |v| then Split(v, j + 1) else [];
    assert Split(v, i) == [v[i..j]] + rest;
  }

  // ------------------------------------------------------- any value, any id

  // id stands between two commas, or the ends, of the value.
  ghost predicate IsToken(v: Bytes, i: nat, j: nat, id: Bytes) {
    && i <= j <= |v| && v[i..j] == id && (forall k :: i <= k < j ==> v[k] != 44)
    && (i == 0 || v[i - 1] == 44) && (j == |v| || v[j] == 44)
  }

  lemma {:induction false} TokensFrom(v: Bytes, i: nat, id: Bytes)
    requires i <= |v| && (i == 0 || v[i - 1] == 44)
    ensures id in Split(v, i) <==> exists a, b: nat :: i <= a && IsToken(v, a, b, id)
    decreases |v| - i
  {
    var j := TokenEnd(v, i);
    SplitIs(v, i);
    hide Split, TokenEnd;
    if v[i..j] == id { assert IsToken(v, i, j, id); }
    if j < |v| { TokensFrom(v, j + 1, id); }
    forall a, b: nat | i <= a && IsToken(v, a, b, id) ensures v[i..j] == id || (j < |v| && j + 1 <= a) {
      if a == i { assert b == j; }
    }
  }

  // An append fails exactly for an empty id; it leaves a value that has the id as
  // one of its tokens, and otherwise puts it last, behind a comma if there is any.
  lemma {:induction false} AppendIs(prev: Option<Bytes>, id: Bytes)
    ensures var v := if prev.Some? then prev.value else [];
      Append(prev, id) ==
        if id == [] then None
        else if v == [] then Some(id)
        else if exists a, b: nat :: IsToken(v, a, b, id) then Some(v)
        else Some(v + [44] + id)
  {
    if prev.Some? && prev.value != [] { TokensFrom(prev.value, 0, id); }
  }

  lemma {:induction false} JoinFront(id: Bytes, ids: seq<Bytes>)
    requires ids != []
    ensures Join([id] + ids) == id + [COMMA] + Join(ids)
  {
    var all, n := [id] + ids, |ids|;
    assert all[..n] == [id] + ids[..n - 1] && all[n] == ids[n - 1];
    if n == 1 {
      assert all[..n] == [id];
    } else {
      JoinFront(id, ids[..n - 1]);
      assert id + [COMMA] + Join(ids[..n - 1]) + [COMMA] + ids[n - 1] == id + [COMMA] + Join(ids);
    }
  }

  // Cutting at the commas loses nothing of any value: joined again the pieces are
  // the value, and none has a comma.
  lemma {:induction false} JoinOfSplit(v: Bytes, i: nat)
    requires i <= |v|
    ensures Join(Split(v, i)) == v[i..] && forall id <- Split(v, i) :: COMMA !in id
    decreases |v| - i
  {
    hide Split, Join;
    var j := TokenEnd(v, i);
    SplitIs(v, i);
    assert COMMA !in v[i..j];
    if j < |v| {
      JoinOfSplit(v, j + 1);
      JoinFront(v[i..j], Split(v, j + 1));
      Rejoined(v, i, j);
    } else {
      JoinOne(v[i..]);
      assert v[i..j] == v[i..];
    }
  }

  lemma {:induction false} JoinOne(id: Bytes)
    ensures Join([id]) == id
  {}

  lemma {:induction false} Rejoined(v: Bytes, i: nat, j: nat)
    requires i <= j < |v|
    ensures v[i..] == v[i..j] + [v[j]] + v[j + 1..]
  {}
}
