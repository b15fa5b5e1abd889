// The migration head found from script metadata: the one revision that no other names as its
// down_revision.
module MigrationHead {
  import opened Outcomes

  type Revisions = map<string, Option<string>>

  // What the two patterns find in one script file.
  datatype Script = Script(revision: Option<string>, downRevision: Option<Option<string>>)

  predicate Declares(script: Script) {
    script.revision.Some? && script.downRevision.Some?
  }

  // Scripts without both lines are skipped, and a later script replaces an earlier one that
  // declares the same revision.
  method LoadRevisions(scripts: seq<Script>) returns (m: Revisions)
    ensures forall r ::
      r in m <==> exists i :: 0 <= i < |scripts| && scripts[i].downRevision.Some? && scripts[i].revision == Some(r)
    ensures forall i :: 0 <= i < |scripts| && Declares(scripts[i])
              && (forall j :: i < j < |scripts| && Declares(scripts[j]) ==> scripts[j].revision != scripts[i].revision)
              ==> m[scripts[i].revision.value] == scripts[i].downRevision.value
  {
    m := map[];
    for n := 0 to |scripts|
      invariant forall r :: r in m <==> exists i :: 0 <= i < n && Declares(scripts[i]) && scripts[i].revision.value == r
      invariant forall i :: 0 <= i < n && Declares(scripts[i])
                  && (forall j :: i < j < n && Declares(scripts[j]) ==> scripts[j].revision != scripts[i].revision)
                  ==> m[scripts[i].revision.value] == scripts[i].downRevision.value
    {
      if Declares(scripts[n]) {
        m := m[scripts[n].revision.value := scripts[n].downRevision.value];
      }
    }
  }

  function Referenced(m: Revisions): set<string> {
    set r | r in m && m[r].Some? :: m[r].value
  }

  function Heads(m: Revisions): set<string> {
    set r | r in m && r !in Referenced(m)
  }

  function ResolveHead(m: Revisions): Option<string> {
    var heads := Heads(m);
    if |heads| != 1 then None
    else
      assert forall a, b :: a in heads && b in heads ==> a == b by {
        OnlyMember(heads);
      }
      var h :| h in heads;
      Some(h)
  }

  lemma {:induction false} OnlyMember(s: set<string>)
    requires |s| == 1
    ensures forall a, b :: a in s && b in s ==> a == b
  {
    forall a, b | a in s && b in s ensures a == b {
      assert |s - {a}| == 0;
    }
  }

  // With or without cycles, the head is the one revision that no other names as its parent.
  lemma {:induction false} HeadIff(m: Revisions, h: string)
    ensures ResolveHead(m) == Some(h) <==>
      h in m && forall r :: r in m ==> (r == h <==> forall child :: child in m ==> m[child] != Some(r))
  {
    forall r | r in m ensures r in Heads(m) <==> forall child :: child in m ==> m[child] != Some(r) {
    }
    if ResolveHead(m) == Some(h) {
      OnlyMember(Heads(m));
    }
    if h in m && forall r :: r in m ==> (r == h <==> r in Heads(m)) {
      assert Heads(m) == {h};
    }
  }

  // ----- histories -----

  // The parent inside the map; a down_revision naming no known script counts as none.
  function Parent(m: Revisions, r: string): Option<string>
    requires r in m
  {
    if m[r].Some? && m[r].value in m then m[r] else None
  }

  predicate IsPath(m: Revisions, p: seq<string>) {
    && p != []
    && (forall i :: 0 <= i < |p| ==> p[i] in m)
    && (forall i :: 0 <= i < |p| - 1 ==> Parent(m, p[i]) == Some(p[i + 1]))
  }

  ghost predicate CycleFree(m: Revisions) {
    forall p :: IsPath(m, p) && |p| > 1 ==> p[0] != p[|p| - 1]
  }

  predicate Distinct(p: seq<string>) {
    forall i, j :: 0 <= i < j < |p| ==> p[i] != p[j]
  }

  // One chain through every revision, from the newest to the root.
  predicate IsHistory(m: Revisions, p: seq<string>) {
    && IsPath(m, p)
    && Distinct(p)
    && (forall r :: r in m ==> r in p)
    && Parent(m, p[|p| - 1]).None?
  }

  lemma {:induction false} PathsAreDistinct(m: Revisions, p: seq<string>)
    requires CycleFree(m) && IsPath(m, p)
    ensures Distinct(p) && |p| <= |m|
  {
    forall i, j | 0 <= i < j < |p| ensures p[i] != p[j] {
      var q := p[i..j + 1];
      assert IsPath(m, q);
      assert q[0] == p[i] && q[|q| - 1] == p[j];
    }
    DistinctBound(p, m.Keys);
  }

  lemma {:induction false} DistinctBound(p: seq<string>, s: set<string>)
    requires Distinct(p) && forall i :: 0 <= i < |p| ==> p[i] in s
    ensures |p| <= |s|
  {
    if p != [] {
      var last := |p| - 1;
      DistinctBound(p[..last], s - {p[last]});
    }
  }

  // Following down_revision to the end.
  lemma {:induction false} Descend(m: Revisions, p: seq<string>) returns (full: seq<string>)
    requires CycleFree(m) && IsPath(m, p)
    ensures IsPath(m, full) && full[0] == p[0] && Parent(m, full[|full| - 1]).None?
    decreases |m| - |p|
  {
    PathsAreDistinct(m, p);
    var parent := Parent(m, p[|p| - 1]);
    if parent.None? {
      full := p;
    } else {
      var longer := p + [parent.value];
      assert IsPath(m, longer);
      PathsAreDistinct(m, longer);
      full := Descend(m, longer);
    }
  }

  // Any path ends inside the full chain of the only head: climb from it until the head.
  lemma {:induction false} ClimbEndsInChain(m: Revisions, chain: seq<string>, q: seq<string>)
    requires CycleFree(m) && IsPath(m, chain) && Parent(m, chain[|chain| - 1]).None?
    requires Heads(m) == {chain[0]}
    requires IsPath(m, q)
    ensures q[|q| - 1] in chain
    decreases |m| - |q|
  {
    PathsAreDistinct(m, q);
    if q[0] in chain {
      var i :| 0 <= i < |chain| && chain[i] == q[0];
      for k := 0 to |q| - 1
        invariant i + k < |chain| && chain[i + k] == q[k]
      {
        assert Parent(m, chain[i + k]) == Some(q[k + 1]);
      }
    } else {
      assert chain[0] in chain && q[0] !in Heads(m);
      assert q[0] in Referenced(m);
      var child :| child in m && m[child].Some? && m[child].value == q[0];
      var longer := [child] + q;
      assert IsPath(m, longer);
      PathsAreDistinct(m, longer);
      ClimbEndsInChain(m, chain, longer);
    }
  }

  lemma {:induction false} HeadGivesHistory(m: Revisions) returns (history: seq<string>)
    requires CycleFree(m) && ResolveHead(m).Some?
    ensures IsHistory(m, history) && history[0] == ResolveHead(m).value
  {
    var h := ResolveHead(m).value;
    OnlyMember(Heads(m));
    assert Heads(m) == {h};
    assert IsPath(m, [h]);
    history := Descend(m, [h]);
    PathsAreDistinct(m, history);
    forall r | r in m ensures r in history {
      assert IsPath(m, [r]);
      ClimbEndsInChain(m, history, [r]);
    }
  }

  lemma {:induction false} PathInsideHistory(m: Revisions, history: seq<string>, p: seq<string>, i: nat, k: nat)
    requires IsHistory(m, history) && IsPath(m, p) && i < |history| && history[i] == p[0] && k < |p|
    ensures i + k < |history| && history[i + k] == p[k]
  {
    if k > 0 {
      PathInsideHistory(m, history, p, i, k - 1);
      assert Parent(m, history[i + k - 1]) == Some(p[k]);
    }
  }

  lemma {:induction false} HistoryGivesHead(m: Revisions, history: seq<string>)
    requires IsHistory(m, history)
    ensures CycleFree(m) && ResolveHead(m) == Some(history[0])
  {
    forall p | IsPath(m, p) && |p| > 1 ensures p[0] != p[|p| - 1] {
      var i :| 0 <= i < |history| && history[i] == p[0];
      PathInsideHistory(m, history, p, i, |p| - 1);
    }
    forall r | r in m ensures r in Referenced(m) <==> r != history[0] {
      var k :| 0 <= k < |history| && history[k] == r;
      if k > 0 {
        assert Parent(m, history[k - 1]) == Some(r);
      }
      if r in Referenced(m) {
        var child :| child in m && m[child].Some? && m[child].value == r;
        var c :| 0 <= c < |history| && history[c] == child;
        assert Parent(m, child) == Some(r);
        assert c < |history| - 1 && history[c + 1] == r;
      }
    }
    assert Heads(m) == {history[0]};
  }

  // The resolver answers h for an acyclic map exactly when all revisions form a single chain whose
  // newest revision is h.
  lemma {:induction false} HeadIffLinearHistory(m: Revisions, h: string)
    ensures CycleFree(m) && ResolveHead(m) == Some(h)
       <==> exists history :: IsHistory(m, history) && history[0] == h
  {
    if CycleFree(m) && ResolveHead(m) == Some(h) {
      var history := HeadGivesHistory(m);
    }
    if history :| IsHistory(m, history) && history[0] == h {
      HistoryGivesHead(m, history);
    }
  }

  // In a history every revision is reached from the head, and only the last lacks a parent.
  lemma {:induction false} HistoryReachesAll(m: Revisions, history: seq<string>, r: string)
    requires IsHistory(m, history) && r in m
    ensures exists p :: IsPath(m, p) && p[0] == history[0] && p[|p| - 1] == r
    ensures Parent(m, r).None? <==> r == history[|history| - 1]
  {
    var k :| 0 <= k < |history| && history[k] == r;
    assert k < |history| - 1 ==> Parent(m, history[k]) == Some(history[k + 1]);
    var p := history[..k + 1];
    assert IsPath(m, p) && p[0] == history[0] && p[|p| - 1] == r;
  }

  // The resolver does not look for cycles itself: two revisions naming each other beside a lone
  // root leave it a single head that reaches neither.
  lemma {:induction false} CycleHidesRevisions()
    ensures var m: Revisions := map["root" := None, "a" := Some("b"), "b" := Some("a")];
            && ResolveHead(m) == Some("root")
            && !CycleFree(m)
            && Parent(m, "root").None?
  {
    var m: Revisions := map["root" := None, "a" := Some("b"), "b" := Some("a")];
    assert "root" in m && "a" in m && "b" in m;
    assert m["a"].value in Referenced(m) && m["b"].value in Referenced(m);
    assert Heads(m) == {"root"};
    assert IsPath(m, ["a", "b", "a"]);
  }
}
