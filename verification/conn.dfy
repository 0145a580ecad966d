/**
 Database handles: a pooled connection on which each statement commits by itself,
 a transaction, and savepoints inside it, with commit, rollback, and drop
 without commit, which rolls back.
 */
module Conn {
  import opened Prelude

  /** All tables as one map from row keys to row contents. */
  type Table = map<string, string>

  datatype Write = Put(key: string, row: string) | Remove(key: string)

  function Effect(t: Table, w: Write): Table {
    match w
    case Put(k, row) => t[k := row]
    case Remove(k) => t - {k}
  }

  function EffectOfAll(t: Table, ws: seq<Write>): Table {
    if ws == [] then t else Effect(EffectOfAll(t, ws[..|ws| - 1]), ws[|ws| - 1])
  }

  datatype Ending = Commit | Rollback | Dropped

  /** What code does with a handle: a statement, or a nested transaction with its own ending. */
  datatype Action = Execute(write: Write) | Block(body: seq<Action>, ending: Ending)

  type Program = seq<Action>

  /** The writes of a program that take effect, in order. */
  function Surviving(p: Program): seq<Write> {
    if p == [] then [] else Surviving(p[..|p| - 1]) + SurvivingOf(p[|p| - 1])
  }

  function SurvivingOf(a: Action): seq<Write> {
    match a
    case Execute(w) => [w]
    case Block(body, ending) => if ending == Commit then Surviving(body) else []
  }

  /** At top level an action reaches other connections: a statement, or a transaction that commits. */
  predicate Publishes(a: Action) {
    a.Execute? || a.ending == Commit
  }

  /** The tables other connections get to read while `p` runs at top level on `t`. */
  function Stages(t: Table, p: Program): seq<Table> {
    if p == [] then []
    else
      Stages(t, p[..|p| - 1])
      + if Publishes(p[|p| - 1]) then [EffectOfAll(t, Surviving(p))] else []
  }

  /** Each of them lies between two top-level actions. */
  lemma {:induction false} StagesAreWhole(t: Table, p: Program, k: nat)
    requires k < |Stages(t, p)|
    ensures exists i :: 0 <= i <= |p| && Stages(t, p)[k] == EffectOfAll(t, Surviving(p[..i]))
  {
    var n := |p| - 1;
    if k < |Stages(t, p[..n])| {
      StagesAreWhole(t, p[..n], k);
      var i :| 0 <= i <= n && Stages(t, p)[k] == EffectOfAll(t, Surviving(p[..n][..i]));
      assert p[..n][..i] == p[..i];
    } else {
      assert p[..|p|] == p;
    }
  }

  lemma {:induction false} EffectOfConcat(t: Table, a: seq<Write>, b: seq<Write>)
    ensures EffectOfAll(t, a + b) == EffectOfAll(EffectOfAll(t, a), b)
    decreases |b|
  {
    if b == [] {
      assert a + b == a;
    } else {
      assert (a + b)[..|a + b| - 1] == a + b[..|b| - 1];
      EffectOfConcat(t, a, b[..|b| - 1]);
    }
  }

  ghost predicate Untouched(ws: seq<Write>, key: string) {
    forall i :: 0 <= i < |ws| ==> ws[i].key != key
  }

  /** `ws[i]` is the last write on the row `key`. */
  ghost predicate LastOn(ws: seq<Write>, key: string, i: nat) {
    i < |ws| && ws[i].key == key && forall j :: i < j < |ws| ==> ws[j].key != key
  }

  lemma OneWriteMore(init: seq<Write>, w: Write, key: string)
    ensures var ws := init + [w];
            && (Untouched(ws, key) <==> Untouched(init, key) && w.key != key)
            && (forall i: nat :: LastOn(ws, key, i) <==> if w.key == key then i == |init| else LastOn(init, key, i))
  {
    var ws := init + [w];
    assert ws[|init|] == w && forall i :: 0 <= i < |init| ==> ws[i] == init[i];
  }

  lemma EffectOfLast(t: Table, init: seq<Write>, w: Write, key: string)
    ensures var before, after := EffectOfAll(t, init), EffectOfAll(t, init + [w]);
            if w.key != key then (key in after <==> key in before) && (key in before ==> after[key] == before[key])
            else match w case Put(_, row) => key in after && after[key] == row case Remove(_) => key !in after
  {
    assert (init + [w])[..|init|] == init;
  }

  /** The last write that touches a row decides it; a row that none touches stays as it was. */
  lemma {:induction false} LastWriteDecides(t: Table, ws: seq<Write>, key: string)
    ensures var t' := EffectOfAll(t, ws);
            && (Untouched(ws, key) ==> (key in t' <==> key in t) && (key in t ==> t'[key] == t[key]))
            && forall i: nat :: LastOn(ws, key, i) ==>
                 match ws[i] case Put(_, row) => key in t' && t'[key] == row case Remove(_) => key !in t'
  {
    if ws != [] {
      var init, w := ws[..|ws| - 1], ws[|ws| - 1];
      assert ws == init + [w];
      hide *;
      LastInRange(init, key);
      LastWriteDecides(t, init, key);
      OneWriteMore(init, w, key);
      EffectOfLast(t, init, w, key);
      assert forall i: nat :: i < |init| ==> ws[i] == init[i];
    }
  }

  lemma LastInRange(ws: seq<Write>, key: string)
    ensures forall i: nat :: LastOn(ws, key, i) ==> i < |ws| && ws[i].key == key
  {
  }

  /** The number of statements at top level and of transactions there that commit. */
  function Published(p: Program): nat {
    if p == [] then 0
    else
      Published(p[..|p| - 1])
      + match p[|p| - 1]
        case Execute(_) => 1
        case Block(_, Commit) => 1
        case Block(_, Rollback) => 0
        case Block(_, Dropped) => 0
  }

  /**
   Other connections see one new table for each statement at top level and each
   transaction that commits, and the last of them is the final one.
   */
  lemma {:induction false} EachCommitIsPublished(t: Table, p: Program)
    ensures |Stages(t, p)| == Published(p)
    ensures EffectOfAll(t, Surviving(p)) == if Published(p) == 0 then t else Stages(t, p)[Published(p) - 1]
  {
    hide *;
    if p == [] {
      NothingPublished(t);
    } else {
      EachCommitIsPublished(t, p[..|p| - 1]);
      OneMoreAction(t, p);
      NothingMore(t, p);
    }
  }

  lemma NothingPublished(t: Table)
    ensures Stages(t, []) == [] && Published([]) == 0 && EffectOfAll(t, Surviving([])) == t
  {
  }

  lemma OneMoreAction(t: Table, p: Program)
    requires p != []
    ensures Stages(t, p) == Stages(t, p[..|p| - 1])
                            + if Publishes(p[|p| - 1]) then [EffectOfAll(t, Surviving(p))] else []
    ensures Published(p) == Published(p[..|p| - 1]) + if Publishes(p[|p| - 1]) then 1 else 0
  {
    hide EffectOfAll, Surviving;
  }

  lemma NothingMore(t: Table, p: Program)
    requires p != []
    ensures !Publishes(p[|p| - 1]) ==> Surviving(p) == Surviving(p[..|p| - 1])
  {
  }

  // ------------------------------------------------------------- the connection

  class Connection {
    /** What every other connection reads. */
    var durable: Table
    /** What this connection reads. */
    var working: Table
    /** The table at BEGIN, then at each open SAVEPOINT. */
    var saved: seq<Table>
    /** Every table other connections have been able to read, oldest first. */
    ghost var published: seq<Table>

    ghost predicate Valid()
      reads this
    {
      && durable == (if saved == [] then working else saved[0])
      && published != [] && published[|published| - 1] == durable
    }

    constructor (t: Table)
      ensures Valid() && durable == working == t && saved == [] && published == [t]
    {
      durable, working, saved, published := t, t, [], [t];
    }

    method Perform(w: Write)
      requires Valid()
      modifies this
      ensures Valid() && saved == old(saved)
      ensures working == Effect(old(working), w)
      ensures published == if saved == [] then old(published) + [working] else old(published)
    {
      match w {
        case Put(k, row) => working := working[k := row];
        case Remove(k) => working := working - {k};
      }
      if saved == [] {
        durable := working;
        published := published + [durable];
      }
    }

    /** `BEGIN` on a free connection, `SAVEPOINT` inside a transaction. */
    method Begin()
      requires Valid()
      modifies this
      ensures Valid() && saved == old(saved) + [working]
      ensures working == old(working) && published == old(published)
    {
      saved := saved + [working];
    }

    /** `COMMIT` of the outermost transaction, `RELEASE` of a savepoint. */
    method CommitLast()
      requires Valid() && saved != []
      modifies this
      ensures Valid() && saved == old(saved)[..|old(saved)| - 1] && working == old(working)
      ensures published == if saved == [] then old(published) + [working] else old(published)
    {
      saved := saved[..|saved| - 1];
      if saved == [] {
        durable := working;
        published := published + [durable];
      }
    }

    method RollbackLast()
      requires Valid() && saved != []
      modifies this
      ensures Valid() && saved == old(saved)[..|old(saved)| - 1]
      ensures working == old(saved)[|old(saved)| - 1] && published == old(published)
    {
      working := saved[|saved| - 1];
      saved := saved[..|saved| - 1];
    }

    /** One action; a nested one runs between a begin and its ending. */
    method Act(a: Action)
      requires Valid()
      modifies this
      ensures Valid() && saved == old(saved)
      ensures working == EffectOfAll(old(working), SurvivingOf(a))
      ensures published == old(published) + if old(saved) == [] && Publishes(a) then [working] else []
      decreases a
    {
      match a {
        case Execute(w) =>
          Perform(w);
          assert [w][..0] == [];
        case Block(body, ending) =>
          Begin();
          RunProgram(body);
          if ending == Commit {
            CommitLast();
          } else {
            RollbackLast();
          }
      }
    }

    /**
     A whole program: the table ends as the effect of exactly the surviving
     writes, in order. Other connections read only its `Stages`, and nothing at
     all of it while it runs inside a transaction.
     */
    method RunProgram(p: Program)
      requires Valid()
      modifies this
      ensures Valid() && saved == old(saved)
      ensures working == EffectOfAll(old(working), Surviving(p))
      ensures published == old(published) + if old(saved) == [] then Stages(old(working), p) else []
      decreases p
    {
      for i := 0 to |p|
        invariant Valid() && saved == old(saved)
        invariant working == EffectOfAll(old(working), Surviving(p[..i]))
        invariant published
                  == old(published) + if old(saved) == [] then Stages(old(working), p[..i]) else []
      {
        assert p[..i + 1][..i] == p[..i];
        EffectOfConcat(old(working), Surviving(p[..i]), SurvivingOf(p[i]));
        Act(p[i]);
      }
      assert p[..|p|] == p;
    }
  }

  // ----------------------------------------------------- which writes take effect

  /** The position of a write: the index at each level of nesting. */
  type Path = seq<nat>

  predicate IsWrite(p: Program, q: Path)
    decreases |q|
  {
    q != [] && q[0] < |p|
    && if |q| == 1 then p[q[0]].Execute? else p[q[0]].Block? && IsWrite(p[q[0]].body, q[1..])
  }

  function WriteAt(p: Program, q: Path): Write
    requires IsWrite(p, q)
    decreases |q|
  {
    if |q| == 1 then p[q[0]].write else WriteAt(p[q[0]].body, q[1..])
  }

  /** Every block around the write at `q` commits. */
  predicate Survives(p: Program, q: Path)
    requires IsWrite(p, q)
    decreases |q|
  {
    |q| == 1 || (p[q[0]].ending == Commit && Survives(p[q[0]].body, q[1..]))
  }

  /** The positions of all writes of `p`, in program order, whatever becomes of them. */
  function Paths(p: Program): (qs: seq<Path>)
    ensures forall q :: q in qs ==> IsWrite(p, q)
    decreases p
  {
    PathsUpTo(p, |p|)
  }

  function PathsUpTo(p: Program, n: nat): (qs: seq<Path>)
    requires n <= |p|
    ensures forall q :: q in qs ==> IsWrite(p, q) && q[0] < n
    decreases p, n
  {
    if n == 0 then []
    else
      PathsUpTo(p, n - 1)
      + match p[n - 1]
        case Execute(_) => [[n - 1]]
        case Block(body, _) =>
          UnderAreWrites(p, n - 1, Paths(body));
          Under(n - 1, Paths(body))
  }

  lemma UnderAreWrites(p: Program, i: nat, qs: seq<Path>)
    requires i < |p| && p[i].Block? && forall q :: q in qs ==> IsWrite(p[i].body, q)
    ensures forall q :: q in Under(i, qs) ==> IsWrite(p, q) && q[0] == i
  {
    forall q | q in Under(i, qs) ensures IsWrite(p, q) && q[0] == i {
      var k :| 0 <= k < |qs| && q == [i] + qs[k];
      assert qs[k] in qs && q[1..] == qs[k];
    }
  }

  /** `qs` seen from one level further out. */
  function Under(i: nat, qs: seq<Path>): (r: seq<Path>)
    ensures |r| == |qs|
    ensures forall k :: 0 <= k < |r| ==> r[k] == [i] + qs[k]
  {
    seq(|qs|, k requires 0 <= k < |qs| => [i] + qs[k])
  }

  function PickFirst(p: Program, q: Path): seq<Write>
    requires IsWrite(p, q)
  {
    if Survives(p, q) then [WriteAt(p, q)] else []
  }

  /** The writes at the positions `qs` that survive. */
  function Pick(p: Program, qs: seq<Path>): seq<Write>
    requires forall q :: q in qs ==> IsWrite(p, q)
  {
    if qs == [] then []
    else PickFirst(p, qs[0]) + Pick(p, qs[1..])
  }

  lemma {:induction false} PickConcat(p: Program, a: seq<Path>, b: seq<Path>)
    requires forall q :: q in a || q in b ==> IsWrite(p, q)
    ensures Pick(p, a + b) == Pick(p, a) + Pick(p, b)
  {
    hide IsWrite, PickFirst;
    if a == [] {
      assert a + b == b;
    } else {
      assert (a + b)[1..] == a[1..] + b && (a + b)[0] == a[0];
      PickConcat(p, a[1..], b);
      assert PickFirst(p, a[0]) + (Pick(p, a[1..]) + Pick(p, b))
             == PickFirst(p, a[0]) + Pick(p, a[1..]) + Pick(p, b);
    }
  }

  /** A committed block lets exactly its own survivors through, any other block none. */
  lemma {:induction false} PickUnder(p: Program, i: nat, qs: seq<Path>)
    requires i < |p| && p[i].Block? && forall q :: q in qs ==> IsWrite(p[i].body, q)
    requires forall q :: q in Under(i, qs) ==> IsWrite(p, q)
    ensures Pick(p, Under(i, qs)) == if p[i].ending == Commit then Pick(p[i].body, qs) else []
  {
    if qs != [] {
      assert Under(i, qs)[1..] == Under(i, qs[1..]);
      assert qs[0] in qs;
      PickUnder(p, i, qs[1..]);
      assert Under(i, qs)[0] == [i] + qs[0] && Under(i, qs)[0][1..] == qs[0];
    }
  }

  lemma PickOne(p: Program, i: nat)
    requires i < |p| && p[i].Execute?
    ensures IsWrite(p, [i]) && Pick(p, [[i]]) == [p[i].write]
  {
    assert [[i]][1..] == [];
  }

  lemma NoSurvivors(p: Program)
    ensures Surviving(p[..0]) == Pick(p, PathsUpTo(p, 0))
  {
  }

  lemma SurvivorsOneMore(p: Program, n: nat)
    requires n < |p|
    requires Surviving(p[..n]) == Pick(p, PathsUpTo(p, n))
    requires p[n].Block? ==> Surviving(p[n].body) == Pick(p[n].body, Paths(p[n].body))
    ensures Surviving(p[..n + 1]) == Pick(p, PathsUpTo(p, n + 1))
  {
    hide Pick, Survives, WriteAt, IsWrite, Paths, Under;
    assert p[..n + 1][..n] == p[..n];
    match p[n]
    case Execute(w) =>
      PickOne(p, n);
      PickConcat(p, PathsUpTo(p, n), [[n]]);
    case Block(body, _) =>
      UnderAreWrites(p, n, Paths(body));
      PickUnder(p, n, Paths(body));
      PickConcat(p, PathsUpTo(p, n), Under(n, Paths(body)));
  }

  /**
   Exactly the writes all of whose enclosing blocks commit take effect, in
   program order.
   */
  lemma {:induction false} SurvivorsAreTheCommittedWrites(p: Program)
    ensures Surviving(p) == Pick(p, Paths(p))
    decreases p
  {
    SurvivorsUpTo(p, |p|);
    assert p[..|p|] == p;
  }

  lemma {:induction false} SurvivorsUpTo(p: Program, n: nat)
    requires n <= |p|
    ensures Surviving(p[..n]) == Pick(p, PathsUpTo(p, n))
    decreases p, n
  {
    hide *;
    if n == 0 {
      NoSurvivors(p);
    } else {
      SurvivorsUpTo(p, n - 1);
      if p[n - 1].Block? { SurvivorsAreTheCommittedWrites(p[n - 1].body); }
      SurvivorsOneMore(p, n - 1);
    }
  }

  // ------------------------------------------------------------------- the outbox

  /** Whether `q` leads to the body of a block, the empty path to the program itself. */
  predicate IsBody(p: Program, q: Path)
    decreases |q|
  {
    q == [] || (q[0] < |p| && p[q[0]].Block? && IsBody(p[q[0]].body, q[1..]))
  }

  function BodyAt(p: Program, q: Path): Program
    requires IsBody(p, q)
    decreases |q|
  {
    if q == [] then p else BodyAt(p[q[0]].body, q[1..])
  }

  /** Every block on the way to the body at `q` commits. */
  predicate Commits(p: Program, q: Path)
    requires IsBody(p, q)
    decreases |q|
  {
    q == [] || (p[q[0]].ending == Commit && Commits(p[q[0]].body, q[1..]))
  }

  /** A write inside the body at `q` takes effect when that body commits and the blocks inside it do. */
  lemma {:induction false} SurvivesInside(p: Program, q: Path, inner: Path)
    requires inner != [] && IsBody(p, q) && IsWrite(p, q + inner)
    ensures IsWrite(BodyAt(p, q), inner)
    ensures Survives(p, q + inner) <==> Commits(p, q) && Survives(BodyAt(p, q), inner)
    decreases |q|
  {
    if q == [] {
      assert q + inner == inner;
    } else {
      assert (q + inner)[1..] == q[1..] + inner;
      SurvivesInside(p[q[0]].body, q[1..], inner);
    }
  }

  lemma {:induction false} PickHas(p: Program, qs: seq<Path>, w: Write)
    requires forall q :: q in qs ==> IsWrite(p, q)
    ensures w in Pick(p, qs) <==> exists q :: q in qs && Survives(p, q) && WriteAt(p, q) == w
  {
    if qs != [] {
      hide IsWrite, Survives, WriteAt;
      PickHas(p, qs[1..], w);
      assert qs[0] in qs;
      forall q | q in qs ensures q == qs[0] || q in qs[1..] {
        var k :| 0 <= k < |qs| && qs[k] == q;
        if k > 0 { assert qs[1..][k - 1] == q; }
      }
    }
  }

  lemma {:induction false} PathsAreAllWrites(p: Program, n: nat, q: Path)
    requires n <= |p| && IsWrite(p, q) && q[0] < n
    ensures q in PathsUpTo(p, n)
    decreases |q|, n
  {
    hide Under;
    if q[0] < n - 1 {
      PathsAreAllWrites(p, n - 1, q);
    } else if p[n - 1].Block? {
      PathsAreAllWrites(p[n - 1].body, |p[n - 1].body|, q[1..]);
      UnderHas(n - 1, Paths(p[n - 1].body), q);
    } else {
      assert q == [n - 1];
    }
  }

  lemma UnderHas(i: nat, qs: seq<Path>, q: Path)
    requires q != [] && q[0] == i && q[1..] in qs
    ensures q in Under(i, qs)
  {
    var k :| 0 <= k < |qs| && qs[k] == q[1..];
    assert Under(i, qs)[k] == q;
  }

  /** A row that only one statement writes is there afterwards exactly when that write is in `ws`. */
  lemma {:induction false} RowIsThere(t: Table, ws: seq<Write>, w: Write)
    requires w.Put? && w.key !in t
    requires forall v :: v in ws && v.key == w.key ==> v == w
    ensures w.key in EffectOfAll(t, ws) <==> w in ws
  {
    if ws != [] { RowIsThere(t, ws[..|ws| - 1], w); }
  }

  /** The only write of `p` that names the row of the write at `q` is that write. */
  ghost predicate OnlyWriter(p: Program, q: Path)
    requires IsWrite(p, q)
  {
    forall r :: r in Paths(p) && WriteAt(p, r).key == WriteAt(p, q).key ==> r == q
  }

  lemma RowIffSurvives(t: Table, p: Program, q: Path)
    requires IsWrite(p, q) && WriteAt(p, q).Put? && WriteAt(p, q).key !in t && OnlyWriter(p, q)
    ensures WriteAt(p, q).key in EffectOfAll(t, Surviving(p)) <==> Survives(p, q)
  {
    var w, qs := WriteAt(p, q), Paths(p);
    SurvivorsAreTheCommittedWrites(p);
    PathsAreAllWrites(p, |p|, q);
    PickHas(p, qs, w);
    forall v | v in Pick(p, qs) && v.key == w.key ensures v == w {
      PickHas(p, qs, v);
    }
    RowIsThere(t, Pick(p, qs), w);
  }

  /**
   The outbox. An event row is appended in the body at `q`; a state change of any
   kind, an insert, an update or a delete, happens in the same body or in
   savepoints inside it. Whatever the nesting around them and however it ends: the
   state change takes effect exactly when the event row is in the table afterwards
   and the savepoints between the two commit.
   */
  lemma EventRowIffStateChange(t: Table, p: Program, q: Path, state: Path, event: nat)
    requires state != [] && IsBody(p, q) && IsWrite(p, q + state) && IsWrite(p, q + [event])
    requires WriteAt(p, q + [event]).Put? && WriteAt(p, q + [event]).key !in t && OnlyWriter(p, q + [event])
    ensures IsWrite(BodyAt(p, q), state)
    ensures Survives(p, q + state)
            <==> WriteAt(p, q + [event]).key in EffectOfAll(t, Surviving(p)) && Survives(BodyAt(p, q), state)
  {
    RowIffSurvives(t, p, q + [event]);
    SurvivesInside(p, q, state);
    SurvivesInside(p, q, [event]);
  }

  /** Side by side in one body, the state change takes effect if and only if the event row is there. */
  lemma EventRowIffSiblingChange(t: Table, p: Program, q: Path, state: nat, event: nat)
    requires IsBody(p, q) && IsWrite(p, q + [state]) && IsWrite(p, q + [event])
    requires WriteAt(p, q + [event]).Put? && WriteAt(p, q + [event]).key !in t && OnlyWriter(p, q + [event])
    ensures Survives(p, q + [state]) <==> WriteAt(p, q + [event]).key in EffectOfAll(t, Surviving(p))
  {
    EventRowIffStateChange(t, p, q, [state], event);
  }
}
