// What each write command does, told by the words for it in any case: which key
// of which table it writes or drops (kvstore.c, resp.c).
module Verbs {
  import opened KvData
  import opened TimeKey
  import opened Commands
  import IdList

  // ------------------------------------------------------------------- names

  // s is the word, given in capitals, with each letter in either case.
  predicate Spells(s: Bytes, word: string) {
    |s| == |word| && forall i :: 0 <= i < |s| ==> IsLetter(s[i], word[i])
  }

  predicate IsLetter(c: byte, w: char) {
    c == w as int || (65 <= w as int <= 90 && c == w as int + 32)
  }

  predicate Capitals(word: string) {
    forall i :: 0 <= i < |word| ==> word[i] as int < 97
  }

  lemma {:induction false} NameSpells(s: Bytes, word: string)
    requires Capitals(word)
    ensures Name(s) == word <==> Spells(s, word)
  {
    if Name(s) == word {
      forall i | 0 <= i < |s| ensures IsLetter(s[i], word[i]) { assert Name(s)[i] == word[i]; }
    }
    if Spells(s, word) {
      forall i | 0 <= i < |s| ensures Name(s)[i] == word[i] { assert IsLetter(s[i], word[i]); }
      assert Name(s) == word;
    }
  }

  // Two names are the same command if and only if they are equally long and
  // agree at each place but for the case of a letter.
  predicate Alike(c: byte, d: byte) {
    c == d || (65 <= c <= 90 && d == c + 32) || (65 <= d <= 90 && c == d + 32)
  }

  lemma {:induction false} SameName(s: Bytes, t: Bytes)
    ensures Name(s) == Name(t) <==> |s| == |t| && forall i :: 0 <= i < |s| ==> Alike(s[i], t[i])
  {
    if Name(s) == Name(t) {
      assert |s| == |Name(s)| == |t|;
      forall i | 0 <= i < |s| ensures Alike(s[i], t[i]) { assert Name(s)[i] == Name(t)[i]; }
    }
    if |s| == |t| && forall i :: 0 <= i < |s| ==> Alike(s[i], t[i]) {
      forall i | 0 <= i < |s| ensures Name(s)[i] == Name(t)[i] { assert Alike(s[i], t[i]); }
    }
  }

  // The words of the write commands.
  datatype Word = Set | Del | Mod | RSet | RDel | RMod | HSet | HDel | HMod | SSet | SDel | SMod
                | Keep | SetCtx | SetRec | SetIndex | AddZ | DelCtx

  function Spelling(w: Word): string {
    match w
    case Set => "SET"
    case Del => "DEL"
    case Mod => "MOD"
    case RSet => "RSET"
    case RDel => "RDEL"
    case RMod => "RMOD"
    case HSet => "HSET"
    case HDel => "HDEL"
    case HMod => "HMOD"
    case SSet => "SSET"
    case SDel => "SDEL"
    case SMod => "SMOD"
    case Keep => "KEEP"
    case SetCtx => "SETCTX"
    case SetRec => "SETREC"
    case SetIndex => "SETIDX"
    case AddZ => "ZADD"
    case DelCtx => "DELCTX"
  }

  predicate Is(args: seq<Bytes>, w: Word) {
    args != [] && Spells(args[0], Spelling(w))
  }

  lemma {:induction false} IsNamed(args: seq<Bytes>, w: Word)
    requires args != []
    ensures Is(args, w) <==> Name(args[0]) == Spelling(w)
  {
    assert Capitals(Spelling(w));
    NameSpells(args[0], Spelling(w));
    hide Name, Spells, Spelling;
  }

  // No two words are the same.
  lemma {:induction false} OneWord(args: seq<Bytes>, v: Word, w: Word)
    requires Is(args, v) && Is(args, w)
    ensures v == w
  {
    IsNamed(args, v);
    IsNamed(args, w);
    hide Is, Name, Spells;
    DifferentWords(v, w);
  }

  lemma {:induction false} DifferentWords(v: Word, w: Word)
    requires Spelling(v) == Spelling(w)
    ensures v == w
  {
    var s, t := Spelling(v), Spelling(w);
    assert |s| == |t| && s[0] == t[0] && s[1] == t[1] && s[2] == t[2] && (|s| > 3 ==> s[3] == t[3]);
  }

  // The verb that each word is handled as.
  function Handled(w: Word): Verb {
    match w
    case Set => SET
    case Mod => SET
    case Del => DEL
    case RSet => RSET
    case RMod => RSET
    case RDel => RDEL
    case HSet => HSET
    case HMod => HSET
    case HDel => HDEL
    case SSet => SSET
    case SMod => SSET
    case SDel => SDEL
    case Keep => KEEP
    case SetCtx => SETCTX
    case DelCtx => DELCTX
    case SetRec => SETREC
    case SetIndex => SETIDX
    case AddZ => ZADD
  }

  lemma {:induction false} WordHandled(w: Word)
    ensures VerbOf(Spelling(w)) == Handled(w) && IsWrite(Spelling(w))
  {}

  // A name that is handled or logged is one of the words.
  lemma {:induction false} HandledIsWrite(name: string)
    requires VerbOf(name) != OTHER
    ensures IsWrite(name)
  {}

  lemma {:induction false} WordFor(name: string) returns (w: Word)
    requires IsWrite(name)
    ensures name == Spelling(w)
  {
    hide VerbOf, Handled;
    if name == "SET" { w := Set; }
    else if name == "DEL" { w := Del; }
    else if name == "MOD" { w := Mod; }
    else if name == "RSET" { w := RSet; }
    else if name == "RDEL" { w := RDel; }
    else if name == "RMOD" { w := RMod; }
    else if name == "HSET" { w := HSet; }
    else if name == "HDEL" { w := HDel; }
    else if name == "HMOD" { w := HMod; }
    else if name == "SSET" { w := SSet; }
    else if name == "SDEL" { w := SDel; }
    else if name == "SMOD" { w := SMod; }
    else if name == "KEEP" { w := Keep; }
    else if name == "SETCTX" { w := SetCtx; }
    else if name == "SETREC" { w := SetRec; }
    else if name == "SETIDX" { w := SetIndex; }
    else if name == "ZADD" { w := AddZ; }
    else { w := DelCtx; }
  }

  // The one word that a command's name spells, if any, decides.
  lemma {:induction false} Dispatched(args: seq<Bytes>) returns (w: Option<Word>)
    requires args != []
    ensures w.Some? ==> Is(args, w.value) && VerbOf(Name(args[0])) == Handled(w.value) && IsWrite(Name(args[0]))
    ensures w.Some? ==> forall v :: Is(args, v) ==> v == w.value
    ensures w.None? ==> VerbOf(Name(args[0])) == OTHER && !IsWrite(Name(args[0])) && forall v :: !Is(args, v)
  {
    hide Is, Name, Spelling, VerbOf, IsWrite;
    var name := Name(args[0]);
    forall v ensures Is(args, v) <==> name == Spelling(v) { IsNamed(args, v); }
    if v :| Is(args, v) {
      WordHandled(v);
      forall u | Is(args, u) ensures u == v { OneWord(args, u, v); }
      w := Some(v);
    } else {
      if VerbOf(name) != OTHER { HandledIsWrite(name); }
      if IsWrite(name) { var u := WordFor(name); }
      w := None;
    }
  }

  // A command is logged exactly if its name is one of the words, in any case.
  lemma {:induction false} LoggedWhen(args: seq<Bytes>)
    ensures IsLogged(args) <==> exists w :: Is(args, w)
  {
    if args != [] { var w := Dispatched(args); }
  }

  // ------------------------------------------------------------- one command

  datatype Which = Items | Tree | Hash | Skip | Answers | Contexts | Records

  function In(db: Db, t: Which): Values {
    match t
    case Items => db.items
    case Tree => db.rb
    case Hash => db.hash
    case Skip => db.skip
    case Answers => db.answers
    case Contexts => db.contexts
    case Records => db.records
  }

  // The command writes to key k of table t. For the array it depends on the state
  // whether there is a place for a new key.
  predicate Writes(db: Db, t: Which, args: seq<Bytes>, k: Bytes) {
    match t
    case Items => (Is(args, Set) || Is(args, Mod)) && |args| >= 3 && args[1] == k && (k in db.items || (k != [] && Room(db)))
    case Tree => (Is(args, RSet) || Is(args, RMod)) && |args| >= 3 && args[1] == k
    case Hash => (Is(args, HSet) || Is(args, HMod)) && |args| >= 3 && args[1] == k
    case Skip =>
      || ((Is(args, SSet) || Is(args, SMod)) && |args| >= 3 && args[1] == k)
      || (Is(args, AddZ) && |args| == 3 && Atoll(args[1]) > 0 && args[2] != []
          && k == Key(Atoll(args[1]), args[2]) && |k| < 128)
    case Answers => Is(args, Keep) && |args| >= 3 && args[1] == k
    case Contexts => Is(args, SetCtx) && |args| >= 4 && args[1] == k
    case Records => Is(args, SetRec) && |args| == 3 && args[1] == k
  }

  // What it writes: its second argument, but nothing for an entry of the time index.
  function Written(args: seq<Bytes>): Bytes {
    if |args| >= 3 && !Is(args, AddZ) then args[2] else []
  }

  predicate Drops(t: Which, args: seq<Bytes>, k: Bytes) {
    match t
    case Items => Is(args, Del) && |args| >= 2 && args[1] == k
    case Tree => Is(args, RDel) && |args| >= 2 && args[1] == k
    case Hash => Is(args, HDel) && |args| >= 2 && args[1] == k
    case Skip => Is(args, SDel) && |args| >= 2 && args[1] == k
    case Answers => false
    case Contexts => Is(args, DelCtx) && |args| == 2 && args[1] == k
    case Records => false
  }

  // The array has 100000 cells, and an empty key takes one too.
  lemma {:induction false} RoomIs(db: Db)
    ensures Room(db) <==> |db.items| + db.blanks < 100000
  {}

  // What a command does to key k of table t: it has the new value, is gone, or is
  // as it was.
  ghost predicate Effect(db: Db, args: seq<Bytes>, t: Which, k: Bytes) {
    var m, m' := In(db, t), In(Exec(db, args), t);
    if Writes(db, t, args, k) then k in m' && m'[k] == Written(args)
    else if Drops(t, args, k) then k !in m'
    else (k in m' <==> k in m) && (k in m ==> m'[k] == m[k])
  }

  // The verbs that concern a table.
  function Concerns(t: Which): set<Verb> {
    match t
    case Items => {SET, DEL}
    case Tree => {RSET, RDEL}
    case Hash => {HSET, HDEL}
    case Skip => {SSET, SDEL, ZADD}
    case Answers => {KEEP}
    case Contexts => {SETCTX, DELCTX}
    case Records => {SETREC}
  }

  lemma {:induction false} VerbKeeps(db: Db, args: seq<Bytes>, verb: Verb, t: Which)
    requires verb !in Concerns(t)
    ensures In(Handle(db, args, verb), t) == In(db, t)
  {
    hide Handle, In, Concerns;
    if verb in {SET, DEL, RSET, RDEL, HSET, HDEL, SSET, SDEL} { PlainKeeps(db, args, verb, t); } else { OtherKeeps(db, args, verb, t); }
  }

  lemma {:induction false} PlainKeeps(db: Db, args: seq<Bytes>, verb: Verb, t: Which)
    requires verb in {SET, DEL, RSET, RDEL, HSET, HDEL, SSET, SDEL} && verb !in Concerns(t)
    ensures In(Handle(db, args, verb), t) == In(db, t)
  {
    hide ItemsAfter, BlanksAfter, ZAdd, SetIdx, Atoll;
    match verb
    case SET => case DEL => case RSET => case RDEL => case HSET => case HDEL => case SSET => case SDEL =>
  }

  lemma {:induction false} OtherKeeps(db: Db, args: seq<Bytes>, verb: Verb, t: Which)
    requires verb !in {SET, DEL, RSET, RDEL, HSET, HDEL, SSET, SDEL} && verb !in Concerns(t)
    ensures In(Handle(db, args, verb), t) == In(db, t)
  {
    hide ItemsAfter, BlanksAfter, ZAdd, SetIdx, Atoll;
    match verb
    case KEEP => case SETCTX => case DELCTX => case SETREC => case SETIDX => case ZADD => case OTHER =>
  }

  lemma {:induction false} DoSET(db: Db, args: seq<Bytes>)
    ensures Handle(db, args, SET).items == if |args| < 3 then db.items else ItemsAfter(db, args[1], args[2])
  {
    hide Atoll, SetIdx, Room, ItemsAfter, BlanksAfter, ZAdd;
  }

  lemma {:induction false} DoDEL(db: Db, args: seq<Bytes>)
    ensures Handle(db, args, DEL).items == if |args| < 2 then db.items else db.items - {args[1]}
  {
    hide Atoll, SetIdx, Room, ItemsAfter, BlanksAfter, ZAdd;
  }

  lemma {:induction false} OnItems(db: Db, args: seq<Bytes>, k: Bytes, verb: Verb)
    requires args != [] && Exec(db, args) == Handle(db, args, verb) && verb in {SET, DEL}
    requires (verb == SET <==> Is(args, Set) || Is(args, Mod)) && (verb == DEL <==> Is(args, Del)) && !Is(args, AddZ)
    ensures Effect(db, args, Items, k)
  {
    hide Is, Atoll, Exec, Handle, Room, BlanksAfter, SetIdx, ZAdd, Key;
    if verb == SET { DoSET(db, args); } else if verb == DEL { DoDEL(db, args); }
  }

  lemma {:induction false} DoRSET(db: Db, args: seq<Bytes>)
    ensures Handle(db, args, RSET).rb == if |args| < 3 then db.rb else db.rb[args[1] := args[2]]
  {
    hide Atoll, SetIdx, Room, ItemsAfter, BlanksAfter, ZAdd;
  }

  lemma {:induction false} DoRDEL(db: Db, args: seq<Bytes>)
    ensures Handle(db, args, RDEL).rb == if |args| < 2 then db.rb else db.rb - {args[1]}
  {
    hide Atoll, SetIdx, Room, ItemsAfter, BlanksAfter, ZAdd;
  }

  lemma {:induction false} OnTree(db: Db, args: seq<Bytes>, k: Bytes, verb: Verb)
    requires args != [] && Exec(db, args) == Handle(db, args, verb) && verb in {RSET, RDEL}
    requires (verb == RSET <==> Is(args, RSet) || Is(args, RMod)) && (verb == RDEL <==> Is(args, RDel)) && !Is(args, AddZ)
    ensures Effect(db, args, Tree, k)
  {
    hide Is, Atoll, Exec, Handle, Room, ItemsAfter, BlanksAfter, SetIdx, ZAdd, Key;
    if verb == RSET { DoRSET(db, args); } else if verb == RDEL { DoRDEL(db, args); }
  }

  lemma {:induction false} DoHSET(db: Db, args: seq<Bytes>)
    ensures Handle(db, args, HSET).hash == if |args| < 3 then db.hash else db.hash[args[1] := args[2]]
  {
    hide Atoll, SetIdx, Room, ItemsAfter, BlanksAfter, ZAdd;
  }

  lemma {:induction false} DoHDEL(db: Db, args: seq<Bytes>)
    ensures Handle(db, args, HDEL).hash == if |args| < 2 then db.hash else db.hash - {args[1]}
  {
    hide Atoll, SetIdx, Room, ItemsAfter, BlanksAfter, ZAdd;
  }

  lemma {:induction false} OnHash(db: Db, args: seq<Bytes>, k: Bytes, verb: Verb)
    requires args != [] && Exec(db, args) == Handle(db, args, verb) && verb in {HSET, HDEL}
    requires (verb == HSET <==> Is(args, HSet) || Is(args, HMod)) && (verb == HDEL <==> Is(args, HDel)) && !Is(args, AddZ)
    ensures Effect(db, args, Hash, k)
  {
    hide Is, Atoll, Exec, Handle, Room, ItemsAfter, BlanksAfter, SetIdx, ZAdd, Key;
    if verb == HSET { DoHSET(db, args); } else if verb == HDEL { DoHDEL(db, args); }
  }

  lemma {:induction false} DoSSET(db: Db, args: seq<Bytes>)
    ensures Handle(db, args, SSET).skip == if |args| < 3 then db.skip else db.skip[args[1] := args[2]]
  {
    hide Atoll, SetIdx, Room, ItemsAfter, BlanksAfter, ZAdd;
  }

  lemma {:induction false} DoSDEL(db: Db, args: seq<Bytes>)
    ensures Handle(db, args, SDEL).skip == if |args| < 2 then db.skip else db.skip - {args[1]}
  {
    hide Atoll, SetIdx, Room, ItemsAfter, BlanksAfter, ZAdd;
  }

  lemma {:induction false} DoZADD(db: Db, args: seq<Bytes>)
    ensures Handle(db, args, ZADD).skip == if |args| != 3 then db.skip else ZAdd(db.skip, Atoll(args[1]), args[2])
  {
    hide Atoll, SetIdx, Room, ItemsAfter, BlanksAfter, ZAdd;
  }

  lemma {:induction false} OnSkip(db: Db, args: seq<Bytes>, k: Bytes, verb: Verb)
    requires args != [] && Exec(db, args) == Handle(db, args, verb) && verb in {SSET, SDEL, ZADD}
    requires (verb == SSET <==> Is(args, SSet) || Is(args, SMod)) && (verb == SDEL <==> Is(args, SDel)) && (verb == ZADD <==> Is(args, AddZ))
    ensures Effect(db, args, Skip, k)
  {
    hide Is, Atoll, Exec, Handle, Room, ItemsAfter, BlanksAfter, SetIdx, Stamp;
    if verb == SSET { DoSSET(db, args); } else if verb == SDEL { DoSDEL(db, args); } else if verb == ZADD { DoZADD(db, args); }
  }

  lemma {:induction false} DoKEEP(db: Db, args: seq<Bytes>)
    ensures Handle(db, args, KEEP).answers == if |args| < 3 then db.answers else db.answers[args[1] := args[2]]
  {
    hide Atoll, SetIdx, Room, ItemsAfter, BlanksAfter, ZAdd;
  }

  lemma {:induction false} OnAnswers(db: Db, args: seq<Bytes>, k: Bytes, verb: Verb)
    requires args != [] && Exec(db, args) == Handle(db, args, verb) && verb in {KEEP}
    requires (verb == KEEP <==> Is(args, Keep)) && !Is(args, AddZ)
    ensures Effect(db, args, Answers, k)
  {
    hide Is, Atoll, Exec, Handle, Room, ItemsAfter, BlanksAfter, SetIdx, ZAdd, Key;
    if verb == KEEP { DoKEEP(db, args); }
  }

  lemma {:induction false} DoSETCTX(db: Db, args: seq<Bytes>)
    ensures Handle(db, args, SETCTX).contexts == if |args| < 4 then db.contexts else db.contexts[args[1] := args[2]]
  {
    hide Atoll, SetIdx, Room, ItemsAfter, BlanksAfter, ZAdd;
  }

  lemma {:induction false} DoDELCTX(db: Db, args: seq<Bytes>)
    ensures Handle(db, args, DELCTX).contexts == if |args| != 2 then db.contexts else db.contexts - {args[1]}
  {
    hide Atoll, SetIdx, Room, ItemsAfter, BlanksAfter, ZAdd;
  }

  lemma {:induction false} OnContexts(db: Db, args: seq<Bytes>, k: Bytes, verb: Verb)
    requires args != [] && Exec(db, args) == Handle(db, args, verb) && verb in {SETCTX, DELCTX}
    requires (verb == SETCTX <==> Is(args, SetCtx)) && (verb == DELCTX <==> Is(args, DelCtx)) && !Is(args, AddZ)
    ensures Effect(db, args, Contexts, k)
  {
    hide Is, Atoll, Exec, Handle, Room, ItemsAfter, BlanksAfter, SetIdx, ZAdd, Key;
    if verb == SETCTX { DoSETCTX(db, args); } else if verb == DELCTX { DoDELCTX(db, args); }
  }

  lemma {:induction false} DoSETREC(db: Db, args: seq<Bytes>)
    ensures Handle(db, args, SETREC).records == if |args| != 3 then db.records else db.records[args[1] := args[2]]
  {
    hide Atoll, SetIdx, Room, ItemsAfter, BlanksAfter, ZAdd;
  }

  lemma {:induction false} OnRecords(db: Db, args: seq<Bytes>, k: Bytes, verb: Verb)
    requires args != [] && Exec(db, args) == Handle(db, args, verb) && verb in {SETREC}
    requires (verb == SETREC <==> Is(args, SetRec)) && !Is(args, AddZ)
    ensures Effect(db, args, Records, k)
  {
    hide Is, Atoll, Exec, Handle, Room, ItemsAfter, BlanksAfter, SetIdx, ZAdd, Key;
    if verb == SETREC { DoSETREC(db, args); }
  }

  lemma {:induction false} ExecIs(db: Db, args: seq<Bytes>)
    requires args != []
    ensures Exec(db, args) == Handle(db, args, VerbOf(Name(args[0])))
  {}

  lemma {:induction false} NoCommand(db: Db, t: Which, k: Bytes)
    ensures Exec(db, []) == db && !Writes(db, t, [], k) && !Drops(t, [], k)
  {}

  // Which verb the words stand for.
  ghost predicate Means(args: seq<Bytes>)
    requires args != []
  {
    var v := VerbOf(Name(args[0]));
    && (v == SET <==> Is(args, Set) || Is(args, Mod)) && (v == DEL <==> Is(args, Del))
    && (v == RSET <==> Is(args, RSet) || Is(args, RMod)) && (v == RDEL <==> Is(args, RDel))
    && (v == HSET <==> Is(args, HSet) || Is(args, HMod)) && (v == HDEL <==> Is(args, HDel))
    && (v == SSET <==> Is(args, SSet) || Is(args, SMod)) && (v == SDEL <==> Is(args, SDel))
    && (v == KEEP <==> Is(args, Keep)) && (v == SETCTX <==> Is(args, SetCtx)) && (v == DELCTX <==> Is(args, DelCtx))
    && (v == SETREC <==> Is(args, SetRec)) && (v == SETIDX <==> Is(args, SetIndex)) && (v == ZADD <==> Is(args, AddZ))
  }

  lemma {:induction false} VerbMeans(args: seq<Bytes>)
    requires args != []
    ensures Means(args)
  {
    hide Name, VerbOf, Is, IsWrite;
    var w := Dispatched(args);
  }

  lemma {:induction false} ItemsVerbs(args: seq<Bytes>)
    requires args != [] && Means(args) && VerbOf(Name(args[0])) in Concerns(Items)
    ensures var verb := VerbOf(Name(args[0]));
      verb in {SET, DEL} && (verb == SET <==> Is(args, Set) || Is(args, Mod)) && (verb == DEL <==> Is(args, Del)) && !Is(args, AddZ)
  {
    hide Is, Name, VerbOf;
  }

  lemma {:induction false} TreeVerbs(args: seq<Bytes>)
    requires args != [] && Means(args) && VerbOf(Name(args[0])) in Concerns(Tree)
    ensures var verb := VerbOf(Name(args[0]));
      verb in {RSET, RDEL} && (verb == RSET <==> Is(args, RSet) || Is(args, RMod)) && (verb == RDEL <==> Is(args, RDel)) && !Is(args, AddZ)
  {
    hide Is, Name, VerbOf;
  }

  lemma {:induction false} HashVerbs(args: seq<Bytes>)
    requires args != [] && Means(args) && VerbOf(Name(args[0])) in Concerns(Hash)
    ensures var verb := VerbOf(Name(args[0]));
      verb in {HSET, HDEL} && (verb == HSET <==> Is(args, HSet) || Is(args, HMod)) && (verb == HDEL <==> Is(args, HDel)) && !Is(args, AddZ)
  {
    hide Is, Name, VerbOf;
  }

  lemma {:induction false} SkipVerbs(args: seq<Bytes>)
    requires args != [] && Means(args) && VerbOf(Name(args[0])) in Concerns(Skip)
    ensures var verb := VerbOf(Name(args[0]));
      verb in {SSET, SDEL, ZADD} && (verb == SSET <==> Is(args, SSet) || Is(args, SMod)) && (verb == SDEL <==> Is(args, SDel)) && (verb == ZADD <==> Is(args, AddZ))
  {
    hide Is, Name, VerbOf;
  }

  lemma {:induction false} AnswersVerbs(args: seq<Bytes>)
    requires args != [] && Means(args) && VerbOf(Name(args[0])) in Concerns(Answers)
    ensures var verb := VerbOf(Name(args[0]));
      verb in {KEEP} && (verb == KEEP <==> Is(args, Keep)) && !Is(args, AddZ)
  {
    hide Is, Name, VerbOf;
  }

  lemma {:induction false} ContextsVerbs(args: seq<Bytes>)
    requires args != [] && Means(args) && VerbOf(Name(args[0])) in Concerns(Contexts)
    ensures var verb := VerbOf(Name(args[0]));
      verb in {SETCTX, DELCTX} && (verb == SETCTX <==> Is(args, SetCtx)) && (verb == DELCTX <==> Is(args, DelCtx)) && !Is(args, AddZ)
  {
    hide Is, Name, VerbOf;
  }

  lemma {:induction false} RecordsVerbs(args: seq<Bytes>)
    requires args != [] && Means(args) && VerbOf(Name(args[0])) in Concerns(Records)
    ensures var verb := VerbOf(Name(args[0]));
      verb in {SETREC} && (verb == SETREC <==> Is(args, SetRec)) && !Is(args, AddZ)
  {
    hide Is, Name, VerbOf;
  }

  // No word for the table is spelled: nothing is written to it or dropped.
  lemma {:induction false} Unconcerned(db: Db, args: seq<Bytes>, t: Which, k: Bytes)
    requires args != [] && Means(args) && VerbOf(Name(args[0])) !in Concerns(t)
    ensures !Writes(db, t, args, k) && !Drops(t, args, k)
  {
    hide Name, VerbOf, Is, Atoll, Room, Key;
  }

  // A command leaves every key of every table as it was but the one it names.
  lemma {:induction false} OneCommand(db: Db, args: seq<Bytes>, t: Which, k: Bytes)
    ensures Effect(db, args, t, k)
  {
    hide Is, Name, VerbOf, IsWrite, Exec, Handle, Writes, Drops, Written, Means, Concerns;
    if args == [] {
      NoCommand(db, t, k);
    } else {
      VerbMeans(args);
      ExecIs(db, args);
      var verb := VerbOf(Name(args[0]));
      if verb !in Concerns(t) {
        Unconcerned(db, args, t, k);
        VerbKeeps(db, args, verb, t);
      } else {
        match t
        case Items => ItemsVerbs(args); OnItems(db, args, k, verb);
        case Tree => TreeVerbs(args); OnTree(db, args, k, verb);
        case Hash => HashVerbs(args); OnHash(db, args, k, verb);
        case Skip => SkipVerbs(args); OnSkip(db, args, k, verb);
        case Answers => AnswersVerbs(args); OnAnswers(db, args, k, verb);
        case Contexts => ContextsVerbs(args); OnContexts(db, args, k, verb);
        case Records => RecordsVerbs(args); OnRecords(db, args, k, verb);
      }
    }
  }

  // The keyword index: only SETIDX, with two arguments, appends an id to a list.
  lemma {:induction false} IndexCommand(db: Db, args: seq<Bytes>)
    ensures Exec(db, args).index ==
      if Is(args, SetIndex) && |args| == 3 then SetIdx(db.index, args[1], args[2]) else db.index
  {
    hide Is, Name, VerbOf, IsWrite, Exec, Handle, Means, SetIdx;
    if args == [] {
      NoCommand(db, Items, []);
      NotNamed(SetIndex);
    } else {
      VerbMeans(args);
      ExecIs(db, args);
      HandleIndex(db, args, VerbOf(Name(args[0])));
      IndexVerb(args);
    }
  }

  lemma {:induction false} NotNamed(w: Word)
    ensures !Is([], w)
  {}

  lemma {:induction false} IndexVerb(args: seq<Bytes>)
    requires args != [] && Means(args)
    ensures VerbOf(Name(args[0])) == SETIDX <==> Is(args, SetIndex)
    ensures VerbOf(Name(args[0])) == SET <==> Is(args, Set) || Is(args, Mod)
  {
    hide Is, Name, VerbOf;
  }

  lemma {:induction false} HandleIndex(db: Db, args: seq<Bytes>, verb: Verb)
    ensures Handle(db, args, verb).index == if verb == SETIDX && |args| == 3 then SetIdx(db.index, args[1], args[2]) else db.index
  {
    hide ItemsAfter, BlanksAfter, ZAdd, SetIdx, Atoll;
    match verb
    case SET => case DEL => case RSET => case RDEL => case HSET => case HDEL => case SSET => case SDEL =>
    case KEEP => case SETCTX => case DELCTX => case SETREC => case SETIDX => case ZADD => case OTHER =>
  }

  // A SET or MOD with an empty key takes a cell of the array, if one is left.
  lemma {:induction false} BlanksCommand(db: Db, args: seq<Bytes>)
    requires [] !in db.items
    ensures Exec(db, args).blanks ==
      db.blanks + if (Is(args, Set) || Is(args, Mod)) && |args| >= 3 && args[1] == [] && Room(db) then 1 else 0
  {
    hide Is, Name, VerbOf, IsWrite, Exec, Handle, Means, Room;
    if args == [] {
      NoCommand(db, Items, []);
      NotNamed(Set);
      NotNamed(Mod);
    } else {
      VerbMeans(args);
      ExecIs(db, args);
      HandleBlanks(db, args, VerbOf(Name(args[0])));
      IndexVerb(args);
    }
  }

  lemma {:induction false} HandleBlanks(db: Db, args: seq<Bytes>, verb: Verb)
    ensures Handle(db, args, verb).blanks == if verb == SET && |args| >= 3 then BlanksAfter(db, args[1]) else db.blanks
  {
    hide ItemsAfter, BlanksAfter, ZAdd, SetIdx, Atoll;
    match verb
    case SET => case DEL => case RSET => case RDEL => case HSET => case HDEL => case SSET => case SDEL =>
    case KEEP => case SETCTX => case DELCTX => case SETREC => case SETIDX => case ZADD => case OTHER =>
  }
}
