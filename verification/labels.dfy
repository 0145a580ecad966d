/**
 Scoped labels: applying a label to an issue takes off the other labels of its
 scope, in one transaction.
 */
module LabelRepo {
  import opened Prelude

  datatype Label = Label(id: nat, repository: nat, name: string)

  datatype Error = AlreadyExists(name: string) | ForeignKey

  // ---------------------------------------------------------------------- scopes

  /** Everything before the last slash. */
  function ScopeOf(name: string): (scope: Option<string>)
    ensures scope.None? <==> '/' !in name
    ensures scope.Some? ==> scope.value < name && name[|scope.value|] == '/' && '/' !in name[|scope.value| + 1..]
  {
    if name == "" then None
    else
      var init, last := name[..|name| - 1], name[|name| - 1];
      if last == '/' then Some(init)
      else
        var scope := ScopeOf(init);
        assert scope.Some? ==> name[|scope.value| + 1..] == init[|scope.value| + 1..] + [last];
        scope
  }

  lemma ScopeLast(init: string, last: char)
    ensures ScopeOf(init + [last]) == if last == '/' then Some(init) else ScopeOf(init)
  {
    assert (init + [last])[..|init|] == init;
  }

  /** A name is its scope, a slash and a slash-free rest, in only one way. */
  lemma {:induction false} ScopeIsUnique(scope: string, rest: string)
    requires '/' !in rest
    ensures ScopeOf(scope + "/" + rest) == Some(scope)
  {
    hide *;
    if rest == "" {
      assert scope + "/" + rest == scope + ['/'];
      ScopeLast(scope, '/');
    } else {
      var init, last := rest[..|rest| - 1], rest[|rest| - 1];
      assert last in rest && scope + "/" + rest == scope + "/" + init + [last];
      ScopeIsUnique(scope, init);
      ScopeLast(scope + "/" + init, last);
    }
  }

  predicate SameScope(a: string, b: string) {
    ScopeOf(a).Some? && ScopeOf(a) == ScopeOf(b)
  }

  /** `name` is `scope`, a slash, and `rest`, which has none. */
  predicate Splits(name: string, scope: string, rest: string) {
    name == scope + "/" + rest && '/' !in rest
  }

  /** Two names with one part in front of their last slashes. */
  ghost predicate InOneScope(a: string, b: string) {
    exists scope, rest, rest' :: Splits(a, scope, rest) && Splits(b, scope, rest')
  }

  lemma SameScopeMeans(a: string, b: string)
    ensures SameScope(a, b) <==> InOneScope(a, b)
  {
    if SameScope(a, b) {
      var scope := ScopeOf(a).value;
      assert Splits(a, scope, a[|scope| + 1..]) && Splits(b, scope, b[|scope| + 1..]);
    }
    if scope, rest, rest' :| Splits(a, scope, rest) && Splits(b, scope, rest') {
      ScopeIsUnique(scope, rest);
      ScopeIsUnique(scope, rest');
    }
  }

  lemma SameScopeAlwaysMeans()
    ensures forall a, b :: SameScope(a, b) <==> InOneScope(a, b)
  {
    forall a, b ensures SameScope(a, b) <==> InOneScope(a, b) { SameScopeMeans(a, b); }
  }

  /** A name without a slash shares a scope with no name, itself included. */
  lemma UnscopedNamesStandAlone(a: string, b: string)
    requires '/' !in a
    ensures !InOneScope(a, b) && !InOneScope(b, a)
  {
    forall scope, rest ensures !Splits(a, scope, rest) {
      assert (scope + "/" + rest)[|scope|] == '/';
    }
  }

  function LabelsToUnapply(applied: seq<Label>, added: Label): (stale: seq<Label>)
    ensures forall l :: l in stale <==> l in applied && l.id != added.id && SameScope(l.name, added.name)
  {
    if applied == [] then []
    else
      var init, last := applied[..|applied| - 1], applied[|applied| - 1];
      if last.id != added.id && SameScope(last.name, added.name) then LabelsToUnapply(init, added) + [last]
      else LabelsToUnapply(init, added)
  }

  /**
   Stale are exactly the other applied labels whose names agree with the new one's up
   to the last slash; for a new label without a slash there are none.
   */
  lemma StaleLabelsExactly(applied: seq<Label>, added: Label)
    ensures forall l :: l in LabelsToUnapply(applied, added)
                        <==> l in applied && l.id != added.id && InOneScope(l.name, added.name)
    ensures '/' !in added.name ==> LabelsToUnapply(applied, added) == []
  {
    var stale := LabelsToUnapply(applied, added);
    forall l: Label
      ensures SameScope(l.name, added.name) <==> InOneScope(l.name, added.name)
      ensures '/' !in added.name ==> !InOneScope(l.name, added.name)
    {
      SameScopeMeans(l.name, added.name);
      if '/' !in added.name { UnscopedNamesStandAlone(added.name, l.name); }
    }
    hide SameScope, InOneScope, LabelsToUnapply;
    assert stale != [] ==> stale[0] in stale;
  }

  // ---------------------------------------------------------------------- tables

  /** `labels` by id, the issue ids, and the `issue_labels` pairs of issue and label. */
  datatype Tables = Tables(labels: map<nat, Label>, issues: set<nat>, applied: set<(nat, nat)>)

  /** Foreign keys, and every label stored under its own id. */
  ghost predicate Consistent(t: Tables) {
    && (forall id :: id in t.labels ==> t.labels[id].id == id)
    && (forall p :: p in t.applied ==> p.0 in t.issues && p.1 in t.labels)
  }

  predicate CanInsert(t: Tables, tag: Label) {
    tag.id !in t.labels
    && forall id :: id in t.labels ==> !(t.labels[id].repository == tag.repository && t.labels[id].name == tag.name)
  }

  predicate CanApply(t: Tables, issue: nat, tag: nat) {
    issue in t.issues && tag in t.labels
  }

  /** What a label change leaves on the issues. */
  function WithApplied(t: Tables, issue: nat, tag: nat): set<(nat, nat)>
    requires tag in t.labels
  {
    (set p | p in t.applied
             && !(p.0 == issue && p.1 != tag && p.1 in t.labels
                  && SameScope(t.labels[p.1].name, t.labels[tag].name)))
    + {(issue, tag)}
  }

  class LabelTables {
    var labels: map<nat, Label>
    var issues: set<nat>
    var applied: set<(nat, nat)>

    ghost function Contents(): Tables
      reads this
    {
      Tables(labels, issues, applied)
    }

    constructor (issues: set<nat>)
      ensures Contents() == Tables(map[], issues, {})
    {
      labels, applied := map[], {};
      this.issues := issues;
    }

    method Insert(tag: Label) returns (r: Result<(), Error>)
      modifies this`labels
      ensures r.Ok? <==> CanInsert(old(Contents()), tag)
      ensures labels == if r.Ok? then old(labels)[tag.id := tag] else old(labels)
      ensures r.Err? ==> r.error == AlreadyExists(tag.name)
    {
      if tag.id in labels
         || exists id :: id in labels && labels[id].repository == tag.repository && labels[id].name == tag.name
      {
        return Err(AlreadyExists(tag.name));
      }
      labels := labels[tag.id := tag];
      r := Ok(());
    }

    /** The labels on an issue, each once, in the order the database happens to return them. */
    method CurrentlyApplied(issue: nat) returns (rows: seq<Label>)
      requires Consistent(Contents())
      ensures forall l :: l in rows <==> l.id in labels && labels[l.id] == l && (issue, l.id) in applied
      ensures forall i, j :: 0 <= i < j < |rows| ==> rows[i].id != rows[j].id
    {
      var left := set p | p in applied && p.0 == issue :: p.1;
      ghost var all := left;
      rows := [];
      while left != {}
        invariant left <= all
        invariant forall l :: l in rows <==> l.id in labels && labels[l.id] == l && l.id in all - left
        invariant forall i, j :: 0 <= i < j < |rows| ==> rows[i].id != rows[j].id
        decreases |left|
      {
        var id :| id in left;
        assert (issue, id) in applied;
        left := left - {id};
        assert forall i :: 0 <= i < |rows| ==> rows[i] in rows;
        rows := rows + [labels[id]];
      }
    }

    /**
     Takes the stale labels off one by one, then puts the new one on; a foreign-key
     failure rolls the whole transaction back. The caller's `tag` was read from `labels`.
     */
    method ApplyToIssue(issue: nat, tag: Label) returns (r: Result<(), Error>)
      requires Consistent(Contents())
      requires tag.id in labels ==> labels[tag.id] == tag
      modifies this`applied
      ensures r.Ok? <==> CanApply(old(Contents()), issue, tag.id)
      ensures r.Err? ==> r.error == ForeignKey && applied == old(applied)
      ensures r.Ok? ==> applied == WithApplied(old(Contents()), issue, tag.id)
    {
      var before := applied;
      var currentlyApplied := CurrentlyApplied(issue);
      var stale := LabelsToUnapply(currentlyApplied, tag);
      for i := 0 to |stale|
        invariant applied == set p | p in before && !(p.0 == issue && Among(stale[..i], p.1))
      {
        applied := applied - {(issue, stale[i].id)};
        OneMoreAmong(stale, i);
      }
      assert stale[..|stale|] == stale;
      if tag.id !in labels || issue !in issues {
        applied := before;
        return Err(ForeignKey);
      }
      applied := applied + {(issue, tag.id)};
      StaleAreTheOthersOfTheScope(old(Contents()), issue, tag, currentlyApplied);
      r := Ok(());
    }

    method RemoveFromIssue(issue: nat, tag: nat)
      modifies this`applied
      ensures applied == old(applied) - {(issue, tag)}
    {
      applied := applied - {(issue, tag)};
    }
  }

  predicate Among(tags: seq<Label>, id: nat) {
    exists k :: 0 <= k < |tags| && tags[k].id == id
  }

  lemma OneMoreAmong(tags: seq<Label>, i: nat)
    requires i < |tags|
    ensures forall id :: Among(tags[..i + 1], id) <==> Among(tags[..i], id) || id == tags[i].id
  {
    var more := tags[..i + 1];
    assert more[i] == tags[i] && forall k :: 0 <= k < i ==> more[k] == tags[..i][k];
    forall id | Among(tags[..i], id) ensures Among(more, id) {
      var k :| 0 <= k < i && tags[..i][k].id == id;
      assert more[k].id == id;
    }
  }

  lemma StaleAreTheOthersOfTheScope(t: Tables, issue: nat, tag: Label, rows: seq<Label>)
    requires Consistent(t) && tag.id in t.labels && t.labels[tag.id] == tag
    requires forall l :: l in rows <==> l.id in t.labels && t.labels[l.id] == l && (issue, l.id) in t.applied
    ensures forall p :: p in t.applied && p.0 == issue ==>
              (Among(LabelsToUnapply(rows, tag), p.1)
               <==> p.1 != tag.id && p.1 in t.labels && SameScope(t.labels[p.1].name, tag.name))
  {
    SameScopeAlwaysMeans();
    hide SameScope, InOneScope, Among;
    forall p | p in t.applied && p.0 == issue
      ensures Among(LabelsToUnapply(rows, tag), p.1)
              <==> p.1 != tag.id && p.1 in t.labels && SameScope(t.labels[p.1].name, tag.name)
    {
      assert p == (issue, p.1);
      StaleExactly(LabelsToUnapply(rows, tag), rows, tag, t.labels[p.1]);
    }
  }

  lemma StaleExactly(stale: seq<Label>, rows: seq<Label>, tag: Label, l: Label)
    requires forall s :: s in stale <==> s in rows && s.id != tag.id && SameScope(s.name, tag.name)
    requires l in rows && forall s :: s in rows && s.id == l.id ==> s == l
    ensures Among(stale, l.id) <==> l.id != tag.id && SameScope(l.name, tag.name)
  {
    hide SameScope;
    if l in stale {
      var k :| 0 <= k < |stale| && stale[k] == l;
      assert stale[k].id == l.id;
    }
    if Among(stale, l.id) {
      var k :| 0 <= k < |stale| && stale[k].id == l.id;
      assert stale[k] in stale;
    }
  }

  // -------------------------------------------------------------------------- runs

  datatype Event =
    | NewLabel(tag: Label)
    | Apply(issue: nat, id: nat)
    | Remove(issue: nat, id: nat)

  function Step(t: Tables, e: Event): Tables {
    match e
    case NewLabel(tag) => if CanInsert(t, tag) then t.(labels := t.labels[tag.id := tag]) else t
    case Apply(issue, id) => if CanApply(t, issue, id) then t.(applied := WithApplied(t, issue, id)) else t
    case Remove(issue, id) => t.(applied := t.applied - {(issue, id)})
  }

  function After(t: Tables, es: seq<Event>): Tables {
    if es == [] then t else Step(After(t, es[..|es| - 1]), es[|es| - 1])
  }

  ghost predicate OneLabelPerScope(t: Tables) {
    forall p, q ::
      (p in t.applied && q in t.applied && p.0 == q.0 && p.1 in t.labels && q.1 in t.labels
       && InOneScope(t.labels[p.1].name, t.labels[q.1].name))
      ==> p == q
  }

  lemma StepKeepsTheRule(t: Tables, e: Event)
    requires Consistent(t) && OneLabelPerScope(t)
    ensures Consistent(Step(t, e)) && OneLabelPerScope(Step(t, e))
  {
    SameScopeAlwaysMeans();
    hide ScopeOf, InOneScope;
  }

  /** However labels are created, applied and removed, an issue carries at most one label per scope. */
  lemma {:induction false} ScopesStayExclusive(t: Tables, es: seq<Event>)
    requires Consistent(t) && OneLabelPerScope(t)
    ensures Consistent(After(t, es)) && OneLabelPerScope(After(t, es))
  {
    if es != [] {
      ScopesStayExclusive(t, es[..|es| - 1]);
      hide Consistent, OneLabelPerScope, Step;
      StepKeepsTheRule(After(t, es[..|es| - 1]), es[|es| - 1]);
    }
  }

  /** Whether an event puts label `id` on `issue`. */
  predicate PutsOn(t: Tables, e: Event, issue: nat, id: nat) {
    e == Apply(issue, id) && issue in t.issues && id in t.labels
  }

  /** Whether an event takes label `id` off `issue`: its removal, or another label of its scope. */
  ghost predicate TakesOff(t: Tables, e: Event, issue: nat, id: nat) {
    e == Remove(issue, id)
    || (e.Apply? && e.issue == issue && e.id != id && issue in t.issues && e.id in t.labels && id in t.labels
        && InOneScope(t.labels[id].name, t.labels[e.id].name))
  }

  lemma CarriesAfterStep(t: Tables, e: Event, issue: nat, id: nat)
    requires Consistent(t)
    ensures (issue, id) in Step(t, e).applied
            <==> PutsOn(t, e, issue, id) || ((issue, id) in t.applied && !TakesOff(t, e, issue, id))
  {
    SameScopeAlwaysMeans();
    hide SameScope, InOneScope;
  }

  /** Call `k` put the label on, and none since took it off. */
  ghost predicate OnSince(t: Tables, es: seq<Event>, issue: nat, id: nat, k: nat) {
    && k < |es| && PutsOn(After(t, es[..k]), es[k], issue, id)
    && forall j :: k < j < |es| ==> !TakesOff(After(t, es[..j]), es[j], issue, id)
  }

  lemma OnSinceExtends(t: Tables, before: seq<Event>, e: Event, issue: nat, id: nat)
    ensures forall k: nat :: k < |before| ==>
              (OnSince(t, before + [e], issue, id, k)
               <==> OnSince(t, before, issue, id, k) && !TakesOff(After(t, before), e, issue, id))
    ensures OnSince(t, before + [e], issue, id, |before|) <==> PutsOn(After(t, before), e, issue, id)
    ensures forall k: nat :: OnSince(t, before + [e], issue, id, k) ==> k <= |before|
    ensures forall k: nat :: OnSince(t, before, issue, id, k) ==> k < |before|
  {
    hide PutsOn, TakesOff, After;
    var es, last := before + [e], |before|;
    assert es[last] == e && es[..last] == before;
    forall j | 0 <= j < last ensures es[j] == before[j] && es[..j] == before[..j] {}
    forall k: nat | k < last
      ensures OnSince(t, es, issue, id, k)
              <==> OnSince(t, before, issue, id, k) && !TakesOff(After(t, before), e, issue, id)
    {
      if OnSince(t, es, issue, id, k) {
        assert !TakesOff(After(t, es[..last]), es[last], issue, id);
        forall j | k < j < last ensures !TakesOff(After(t, before[..j]), before[j], issue, id) {
          assert !TakesOff(After(t, es[..j]), es[j], issue, id);
        }
      }
    }
  }

  /**
   Which labels an issue carries after any run: exactly those put on by some call
   and taken off by none since, that is, neither removed nor displaced by another
   label of their scope.
   */
  lemma {:induction false} CarriesExactlyWhatIsOn(t: Tables, es: seq<Event>, issue: nat, id: nat)
    requires Consistent(t) && OneLabelPerScope(t) && t.applied == {}
    ensures (issue, id) in After(t, es).applied <==> exists k: nat :: OnSince(t, es, issue, id, k)
    decreases |es|
  {
    if es != [] {
      var before, e := es[..|es| - 1], es[|es| - 1];
      assert es == before + [e];
      CarriesExactlyWhatIsOn(t, before, issue, id);
      ScopesStayExclusive(t, before);
      OnSinceExtends(t, before, e, issue, id);
      CarriesAfterStep(After(t, before), e, issue, id);
      hide Step, OnSince, Consistent, OneLabelPerScope, PutsOn, TakesOff;
    }
  }

  /**
   Applying a label takes another label off its issue exactly when their names agree
   up to their last slashes, and touches no other issue and no label without a slash.
   */
  lemma ApplyingDisplacesExactly(t: Tables, issue: nat, id: nat, p: (nat, nat))
    requires Consistent(t) && issue in t.issues && id in t.labels && p in t.applied && p != (issue, id)
    ensures (issue, id) in Step(t, Apply(issue, id)).applied
    ensures p !in Step(t, Apply(issue, id)).applied
            <==> p.0 == issue && exists scope, rest, rest' ::
                   Splits(t.labels[p.1].name, scope, rest) && Splits(t.labels[id].name, scope, rest')
    ensures '/' !in t.labels[p.1].name || '/' !in t.labels[id].name ==> p in Step(t, Apply(issue, id)).applied
  {
    SameScopeMeans(t.labels[p.1].name, t.labels[id].name);
    if '/' !in t.labels[p.1].name { UnscopedNamesStandAlone(t.labels[p.1].name, t.labels[id].name); }
    if '/' !in t.labels[id].name { UnscopedNamesStandAlone(t.labels[id].name, t.labels[p.1].name); }
    hide SameScope;
  }

  /** Labels of one repository never share a name, and a label is refused only for its id or name. */
  lemma {:induction false} LabelNamesStayUnique(t: Tables, es: seq<Event>, a: nat, b: nat)
    requires Consistent(t) && t.labels == map[]
    requires a in After(t, es).labels && b in After(t, es).labels
    requires After(t, es).labels[a].repository == After(t, es).labels[b].repository
    requires After(t, es).labels[a].name == After(t, es).labels[b].name
    ensures a == b
  {
    var before, e := es[..|es| - 1], es[|es| - 1];
    if a in After(t, before).labels && b in After(t, before).labels {
      LabelNamesStayUnique(t, before, a, b);
    }
  }

  /** A new label is added if and only if neither its id nor, in its repository, its name is taken. */
  lemma NewLabelsAreAdded(t: Tables, tag: Label)
    requires Consistent(t)
    ensures var t' := Step(t, NewLabel(tag));
            && t'.applied == t.applied
            && (t'.labels == t.labels[tag.id := tag] || t'.labels == t.labels)
            && (t'.labels != t.labels <==>
                  tag.id !in t.labels
                  && !exists id :: id in t.labels && t.labels[id].repository == tag.repository
                                   && t.labels[id].name == tag.name)
  {
  }
}
