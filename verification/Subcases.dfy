/** Running a test case once per leaf of its tree of subcases. The state between
    runs is a path saying where to go next. */
module Subcases {

  type Sig = nat           // name, file and line of a subcase
  type Path = seq<Sig>

  /** A subcase with the subcases in its body, in source order. */
  datatype Tree = Tree(sig: Sig, children: seq<Tree>)

  /** Siblings have distinct signatures, at every level. */
  ghost predicate WellNamed(ts: seq<Tree>) {
    ts != [] ==> (forall j | 1 <= j < |ts| :: ts[j].sig != ts[0].sig) && WellNamed(ts[0].children) && WellNamed(ts[1..])
  }

  // ---- leaves ----

  function LeavesOf(t: Tree, prefix: Path): seq<Path>
    decreases t, 1
  {
    if t.children == [] then [prefix + [t.sig]] else Leaves(t.children, prefix + [t.sig])
  }

  /** The paths of all leaves in source order. */
  function Leaves(ts: seq<Tree>, prefix: Path): seq<Path>
    decreases ts, 0
  {
    if ts == [] then [] else LeavesOf(ts[0], prefix) + Leaves(ts[1..], prefix)
  }

  /** The leaves from the subcase at the relative path on. */
  function LeavesFrom(ts: seq<Tree>, prefix: Path, rel: Path): seq<Path>
    decreases ts
  {
    if ts == [] || rel == [] then Leaves(ts, prefix)
    else if ts[0].sig != rel[0] then LeavesFrom(ts[1..], prefix, rel)
    else (if rel[1..] == [] then LeavesOf(ts[0], prefix) else LeavesFrom(ts[0].children, prefix + [ts[0].sig], rel[1..]))
         + Leaves(ts[1..], prefix)
  }

  /** The relative path leads to a subcase of the tree. */
  ghost predicate Leads(ts: seq<Tree>, rel: Path)
    decreases ts
  {
    rel != [] ==>
      ts != [] && if ts[0].sig == rel[0] then rel[1..] == [] || Leads(ts[0].children, rel[1..]) else Leads(ts[1..], rel)
  }

  // ---- which subcases have not been finished ----

  /** No finished path goes through p. */
  ghost predicate Untouched(p: Path, done: set<Path>) {
    forall q | q in done :: !(p <= q)
  }

  ghost predicate AllUntouched(ts: seq<Tree>, prefix: Path, done: set<Path>) {
    forall j | 0 <= j < |ts| :: Untouched(prefix + [ts[j].sig], done)
  }

  ghost predicate UntouchedFrom(ts: seq<Tree>, prefix: Path, rel: Path, done: set<Path>)
    decreases ts
  {
    if ts == [] || rel == [] then AllUntouched(ts, prefix, done)
    else if ts[0].sig != rel[0] then UntouchedFrom(ts[1..], prefix, rel, done)
    else
      && AllUntouched(ts[1..], prefix, done)
      && if rel[1..] == [] then Untouched(prefix + [ts[0].sig], done)
         else UntouchedFrom(ts[0].children, prefix + [ts[0].sig], rel[1..], done)
  }

  // ---- one run ----

  /** Where the saved path still leads below the prefix. */
  function Rel(next: Path, prefix: Path): Path {
    if |next| <= |prefix| then [] else next[|prefix|..]
  }

  /** On the way down: the saved path, if it goes on, leads to a subcase here. */
  ghost predicate Going(ts: seq<Tree>, prefix: Path, next: Path, done: set<Path>) {
    && (|next| <= |prefix| || (next[..|prefix|] == prefix && Leads(ts, Rel(next, prefix))))
    && UntouchedFrom(ts, prefix, Rel(next, prefix), done)
  }

  ghost function Remaining(ts: seq<Tree>, prefix: Path, next: Path): seq<Path> {
    if next == [] then [] else LeavesFrom(ts, prefix, Rel(next, prefix))
  }

  /** The run has been through one leaf, the first of those that were left, and
      the new saved path stands for the rest. */
  ghost predicate Arrived(ts: seq<Tree>, prefix: Path, before: Path, leaf: Path, next: Path, done: set<Path>) {
    && |leaf| > |prefix| && leaf[..|prefix|] == prefix
    && (next != [] ==> |next| > |prefix| && Going(ts, prefix, next, done))
    && LeavesFrom(ts, prefix, Rel(before, prefix)) == [leaf] + Remaining(ts, prefix, next)
  }

  lemma {:induction false} LeadsToSibling(ts: seq<Tree>, rel: Path)
    requires rel != [] && Leads(ts, rel)
    ensures exists j :: 0 <= j < |ts| && ts[j].sig == rel[0]
    decreases |ts|
  {
    if ts[0].sig != rel[0] {
      LeadsToSibling(ts[1..], rel);
      var j :| 0 <= j < |ts[1..]| && ts[1..][j].sig == rel[0];
      assert ts[j + 1].sig == rel[0];
    }
  }

  // A sibling that is passed by changes nothing.
  lemma PassBy(ts: seq<Tree>, prefix: Path, before: Path, leaf: Path, next: Path, done: set<Path>)
    requires WellNamed(ts) && ts != [] && Rel(before, prefix) != [] && ts[0].sig != Rel(before, prefix)[0]
    requires Arrived(ts[1..], prefix, before, leaf, next, done)
    ensures Arrived(ts, prefix, before, leaf, next, done)
  {
    if next != [] {
      LeadsToSibling(ts[1..], Rel(next, prefix));
      var j :| 0 <= j < |ts[1..]| && ts[1..][j].sig == Rel(next, prefix)[0];
      assert ts[j + 1].sig == Rel(next, prefix)[0];
    }
  }

  // Entering the first subcase: what is required of the run below it.
  lemma GoDown(ts: seq<Tree>, prefix: Path, next: Path, done: set<Path>)
    requires ts != [] && Going(ts, prefix, next, done)
    requires Rel(next, prefix) == [] || ts[0].sig == Rel(next, prefix)[0]
    ensures Going(ts[0].children, prefix + [ts[0].sig], next, done)
    ensures AllUntouched(ts[1..], prefix, done)
    ensures ts[0].children == [] ==> |next| <= |prefix| + 1
    ensures Rel(next, prefix + [ts[0].sig]) == if Rel(next, prefix) == [] then [] else Rel(next, prefix)[1..]
  {
  }

  // Finishing a leaf below the first subcase leaves the other siblings untouched.
  lemma SiblingsStayUntouched(ts: seq<Tree>, prefix: Path, leaf: Path, done: set<Path>)
    requires WellNamed(ts) && ts != [] && AllUntouched(ts[1..], prefix, done)
    requires |leaf| > |prefix| && leaf[|prefix|] == ts[0].sig
    ensures AllUntouched(ts[1..], prefix, done + {leaf})
  {
  }

  /** The saved path after the siblings have been seen: theirs is set only when
      the subcase left none. */
  function AfterSiblings(ts: seq<Tree>, prefix: Path, below: Path): Path {
    if below == [] && ts != [] then prefix + [ts[0].sig] else below
  }

  lemma NextSibling(ts: seq<Tree>, prefix: Path, done: set<Path>)
    requires WellNamed(ts) && |ts| > 1 && AllUntouched(ts[1..], prefix, done)
    ensures var next := prefix + [ts[1].sig];
            && Going(ts, prefix, next, done)
            && LeavesFrom(ts, prefix, Rel(next, prefix)) == Leaves(ts[1..], prefix)
  {
  }

  // The saved path goes on below the first subcase.
  lemma NextBelow(ts: seq<Tree>, prefix: Path, below: Path, done: set<Path>)
    requires ts != [] && AllUntouched(ts[1..], prefix, done)
    requires var p := prefix + [ts[0].sig]; |below| > |p| && Going(ts[0].children, p, below, done)
    ensures Going(ts, prefix, below, done)
    ensures LeavesFrom(ts, prefix, Rel(below, prefix))
         == LeavesFrom(ts[0].children, prefix + [ts[0].sig], Rel(below, prefix + [ts[0].sig])) + Leaves(ts[1..], prefix)
  {
    var p := prefix + [ts[0].sig];
    assert below[..|prefix|] == prefix by { assert below[..|p|][..|prefix|] == below[..|prefix|]; }
    assert below[|prefix|] == ts[0].sig by { assert below[..|p|][|prefix|] == below[|prefix|]; }
    assert Rel(below, prefix)[1..] == Rel(below, p);
  }

  /** The leaves of the subcase at p, from the relative path on. */
  function FirstLeaves(t: Tree, p: Path, rel: Path): seq<Path> {
    if t.children == [] then [p] else LeavesFrom(t.children, p, rel)
  }

  lemma LeavesHere(ts: seq<Tree>, prefix: Path, rel: Path, relBelow: Path)
    requires ts != [] && (rel == [] || ts[0].sig == rel[0]) && (ts[0].children == [] ==> |rel| <= 1)
    requires relBelow == if rel == [] then [] else rel[1..]
    ensures LeavesFrom(ts, prefix, rel)
         == FirstLeaves(ts[0], prefix + [ts[0].sig], relBelow) + Leaves(ts[1..], prefix)
  {
    var here := LeavesOf(ts[0], prefix);
    assert here == FirstLeaves(ts[0], prefix + [ts[0].sig], []);
    if rel == [] {
      assert LeavesFrom(ts, prefix, rel) == Leaves(ts, prefix) == here + Leaves(ts[1..], prefix);
    } else if |rel| == 1 {
      assert rel[1..] == [];
      assert LeavesFrom(ts, prefix, rel) == here + Leaves(ts[1..], prefix);
    }
  }

  /** The run below the first subcase has been through one leaf there. */
  ghost predicate BelowDone(t: Tree, p: Path, before: Path, leaf: Path, below: Path) {
    && |leaf| >= |p| && leaf[..|p|] == p
    && FirstLeaves(t, p, Rel(before, p)) == [leaf] + Remaining(t.children, p, below)
  }

  // What is left after the leaf: the rest below the first subcase, then the siblings.
  lemma RestAfterLeaf(ts: seq<Tree>, prefix: Path, below: Path, done: set<Path>)
    requires WellNamed(ts) && ts != [] && AllUntouched(ts[1..], prefix, done)
    requires var p := prefix + [ts[0].sig]; below != [] ==> |below| > |p| && Going(ts[0].children, p, below, done)
    ensures var next := AfterSiblings(ts[1..], prefix, below);
            && (next != [] ==> |next| > |prefix| && Going(ts, prefix, next, done))
            && Remaining(ts, prefix, next)
               == Remaining(ts[0].children, prefix + [ts[0].sig], below) + Leaves(ts[1..], prefix)
  {
    if below != [] {
      NextBelow(ts, prefix, below, done);
    } else if ts[1..] != [] {
      NextSibling(ts, prefix, done);
    }
  }

  lemma AppendAssociates(leaf: Path, a: seq<Path>, b: seq<Path>)
    ensures ([leaf] + a) + b == [leaf] + (a + b)
  {
  }

  /** One leaf below the first subcase, then its siblings. */
  lemma PassThrough(ts: seq<Tree>, prefix: Path, before: Path, leaf: Path, below: Path, done: set<Path>)
    requires WellNamed(ts) && ts != [] && AllUntouched(ts[1..], prefix, done)
    requires Rel(before, prefix) == [] || ts[0].sig == Rel(before, prefix)[0]
    requires BelowDone(ts[0], prefix + [ts[0].sig], before, leaf, below)
    requires var p := prefix + [ts[0].sig]; below != [] ==> |below| > |p| && Going(ts[0].children, p, below, done)
    requires Rel(before, prefix + [ts[0].sig]) == (if Rel(before, prefix) == [] then [] else Rel(before, prefix)[1..])
    requires ts[0].children == [] ==> |before| <= |prefix| + 1
    ensures Arrived(ts, prefix, before, leaf, AfterSiblings(ts[1..], prefix, below), done)
  {
    var p := prefix + [ts[0].sig];
    LeavesHere(ts, prefix, Rel(before, prefix), Rel(before, p));
    RestAfterLeaf(ts, prefix, below, done);
    AppendAssociates(leaf, Remaining(ts[0].children, p, below), Leaves(ts[1..], prefix));
    assert leaf[..|prefix|] == prefix by { assert leaf[..|p|][..|prefix|] == leaf[..|prefix|]; }
  }

  ghost predicate Extends(p: Path, prefix: Path) {
    |p| > |prefix| && p[..|prefix|] == prefix
  }

  lemma ExtendsLess(p: Path, prefix: Path, sig: Sig)
    requires Extends(p, prefix + [sig])
    ensures Extends(p, prefix) && p[|prefix|] == sig
  {
  }

  lemma {:induction false} LeavesExtend(ts: seq<Tree>, prefix: Path, leaf: Path)
    requires leaf in Leaves(ts, prefix)
    ensures Extends(leaf, prefix) && exists j :: 0 <= j < |ts| && ts[j].sig == leaf[|prefix|]
    decreases ts, 0
  {
    if leaf in LeavesOf(ts[0], prefix) {
      LeavesOfExtend(ts[0], prefix, leaf);
    } else {
      LeavesExtend(ts[1..], prefix, leaf);
      var j :| 0 <= j < |ts[1..]| && ts[1..][j].sig == leaf[|prefix|];
      assert ts[j + 1].sig == leaf[|prefix|];
    }
  }

  lemma {:induction false} LeavesOfExtend(t: Tree, prefix: Path, leaf: Path)
    requires leaf in LeavesOf(t, prefix)
    ensures Extends(leaf, prefix) && leaf[|prefix|] == t.sig
    decreases t, 1
  {
    if t.children != [] {
      LeavesExtend(t.children, prefix + [t.sig], leaf);
      ExtendsLess(leaf, prefix, t.sig);
    }
  }

  /** The path leads through subcases of the tree to one that has none in its body. */
  ghost predicate IsLeaf(ts: seq<Tree>, rel: Path)
    decreases |rel|
  {
    rel != [] && exists j :: 0 <= j < |ts| && LeafThrough(ts[j], rel)
  }

  ghost predicate LeafThrough(t: Tree, rel: Path)
    decreases |rel|, 0
  {
    rel != [] && t.sig == rel[0] && if |rel| == 1 then t.children == [] else IsLeaf(t.children, rel[1..])
  }

  lemma {:induction false} LeavesOfIff(t: Tree, prefix: Path, rel: Path)
    ensures prefix + rel in LeavesOf(t, prefix) <==> LeafThrough(t, rel)
    decreases t, 1
  {
    if t.children == [] {
      assert prefix + rel == prefix + [t.sig] <==> rel == [t.sig] by {
        assert (prefix + rel)[|prefix|..] == rel && (prefix + [t.sig])[|prefix|..] == [t.sig];
      }
      assert |rel| > 1 ==> !IsLeaf(t.children, rel[1..]);
    } else if rel != [] && rel[0] == t.sig {
      LeavesIff(t.children, prefix + [t.sig], rel[1..]);
      assert prefix + [t.sig] + rel[1..] == prefix + rel;
    } else if prefix + rel in LeavesOf(t, prefix) {
      LeavesOfExtend(t, prefix, prefix + rel);
    }
  }

  /** What is listed are exactly the paths to subcases without subcases of their own. */
  lemma {:induction false} LeavesIff(ts: seq<Tree>, prefix: Path, rel: Path)
    ensures prefix + rel in Leaves(ts, prefix) <==> IsLeaf(ts, rel)
    decreases ts, 0
  {
    if ts != [] {
      LeavesOfIff(ts[0], prefix, rel);
      LeavesIff(ts[1..], prefix, rel);
      if j :| 0 <= j < |ts[1..]| && LeafThrough(ts[1..][j], rel) {
        assert LeafThrough(ts[j + 1], rel);
      }
      if j :| 0 <= j < |ts| && LeafThrough(ts[j], rel) {
        assert j > 0 ==> LeafThrough(ts[1..][j - 1], rel);
      }
    }
  }

  /** They are listed in source order: those of earlier subcases before those of later ones. */
  lemma {:induction false} LeavesInSourceOrder(ts: seq<Tree>, prefix: Path, k: nat)
    requires k <= |ts|
    ensures Leaves(ts, prefix) == Leaves(ts[..k], prefix) + Leaves(ts[k..], prefix)
  {
    if k == 0 {
      assert ts[..0] == [] && ts[0..] == ts;
    } else {
      LeavesInSourceOrder(ts[1..], prefix, k - 1);
      assert ts[1..][..k - 1] == ts[..k][1..] && ts[1..][k - 1..] == ts[k..];
    }
  }

  ghost predicate NoRepeats(ps: seq<Path>) {
    forall i, j | 0 <= i < j < |ps| :: ps[i] != ps[j]
  }

  lemma NoRepeatsAppend(first: seq<Path>, rest: seq<Path>)
    requires NoRepeats(first) && NoRepeats(rest) && forall a, b | a in first && b in rest :: a != b
    ensures NoRepeats(first + rest)
  {
    forall i, j | 0 <= i < j < |first + rest| ensures (first + rest)[i] != (first + rest)[j] {
      if i < |first| <= j {
        assert first[i] in first && rest[j - |first|] in rest;
      }
    }
  }

  /** No leaf is listed twice. */
  lemma {:induction false} LeavesAreDistinct(ts: seq<Tree>, prefix: Path)
    requires WellNamed(ts)
    ensures NoRepeats(Leaves(ts, prefix))
    decreases ts
  {
    if ts != [] {
      var first, rest := LeavesOf(ts[0], prefix), Leaves(ts[1..], prefix);
      LeavesAreDistinct(ts[0].children, prefix + [ts[0].sig]);
      LeavesAreDistinct(ts[1..], prefix);
      forall a, b | a in first && b in rest ensures a != b {
        LeavesOfExtend(ts[0], prefix, a);
        LeavesExtend(ts[1..], prefix, b);
        var j :| 0 <= j < |ts[1..]| && ts[1..][j].sig == b[|prefix|];
        assert ts[1..][j] == ts[j + 1];
      }
      NoRepeatsAppend(first, rest);
    }
  }

  class Context {
    var reachedLeaf: bool
    var subcaseStack: Path
    var nextSubcaseStack: Path
    var fullyTraversed: set<Path>     // hashes of paths, taken as injective
    var currentDepth: nat
    ghost var visited: seq<Path>      // leaves whose body has been run, in order

    /** The constructor of a subcase object. */
    method Enter(sig: Sig) returns (entered: bool)
      requires reachedLeaf ==> currentDepth < |subcaseStack|
      modifies this`subcaseStack, this`currentDepth, this`nextSubcaseStack
      ensures !reachedLeaf ==>
                && nextSubcaseStack == old(nextSubcaseStack)
                && (entered <==> |nextSubcaseStack| <= |old(subcaseStack)| || nextSubcaseStack[|old(subcaseStack)|] == sig)
                && subcaseStack == (if entered then old(subcaseStack) + [sig] else old(subcaseStack))
                && currentDepth == (if entered then old(currentDepth) + 1 else old(currentDepth))
      ensures reachedLeaf ==>
                && subcaseStack == old(subcaseStack)
                && (entered <==> subcaseStack[old(currentDepth)] == sig)
                && currentDepth == (if entered then old(currentDepth) + 1 else old(currentDepth))
                && nextSubcaseStack ==
                     (if !entered && |old(nextSubcaseStack)| <= currentDepth
                         && subcaseStack[..currentDepth] + [sig] !in fullyTraversed
                      then subcaseStack[..currentDepth] + [sig] else old(nextSubcaseStack))
    {
      entered := false;
      if !reachedLeaf {
        if |nextSubcaseStack| <= |subcaseStack| || nextSubcaseStack[|subcaseStack|] == sig {
          subcaseStack := subcaseStack + [sig];
          currentDepth := currentDepth + 1;
          entered := true;
        }
      } else if subcaseStack[currentDepth] == sig {
        currentDepth := currentDepth + 1;
        entered := true;
      } else if |nextSubcaseStack| <= currentDepth && subcaseStack[..currentDepth] + [sig] !in fullyTraversed {
        nextSubcaseStack := subcaseStack[..currentDepth] + [sig];
      }
    }

    /** The destructor of a subcase object that was entered. What it records as
        finished is the whole stack, even for an outer subcase. */
    method Leave()
      requires currentDepth > 0
      modifies this`currentDepth, this`fullyTraversed, this`nextSubcaseStack, this`reachedLeaf
      ensures currentDepth == old(currentDepth) - 1 && reachedLeaf
      ensures nextSubcaseStack == if old(reachedLeaf) then old(nextSubcaseStack) else []
      ensures fullyTraversed == if old(reachedLeaf) && old(nextSubcaseStack) != [] then old(fullyTraversed)
                                else old(fullyTraversed) + {subcaseStack}
    {
      currentDepth := currentDepth - 1;
      if !reachedLeaf {
        fullyTraversed := fullyTraversed + {subcaseStack};
        nextSubcaseStack := [];
        reachedLeaf := true;
      } else if nextSubcaseStack == [] {
        fullyTraversed := fullyTraversed + {subcaseStack};
      }
    }

    /** Runs the body of a test or subcase: its subcases one after the other. */
    method RunBody(ts: seq<Tree>, ghost prefix: Path)
      requires WellNamed(ts) && currentDepth == |prefix| <= |subcaseStack| && subcaseStack[..|prefix|] == prefix
      requires !reachedLeaf ==> subcaseStack == prefix && Going(ts, prefix, nextSubcaseStack, fullyTraversed)
      requires reachedLeaf ==>
                 && |subcaseStack| > |prefix| && (forall j | 0 <= j < |ts| :: ts[j].sig != subcaseStack[|prefix|])
                 && (nextSubcaseStack == [] || |nextSubcaseStack| > |prefix|)
                 && (nextSubcaseStack == [] ==> AllUntouched(ts, prefix, fullyTraversed))
      modifies this
      ensures currentDepth == |prefix|
      ensures ts == [] ==> unchanged(this)
      ensures old(reachedLeaf) ==>
                && reachedLeaf && subcaseStack == old(subcaseStack) && fullyTraversed == old(fullyTraversed)
                && visited == old(visited) && nextSubcaseStack == AfterSiblings(ts, prefix, old(nextSubcaseStack))
      ensures !old(reachedLeaf) && ts != [] ==>
                && reachedLeaf && visited == old(visited) + [subcaseStack]
                && fullyTraversed == old(fullyTraversed) + {subcaseStack}
                && Arrived(ts, prefix, old(nextSubcaseStack), subcaseStack, nextSubcaseStack, fullyTraversed)
      decreases ts
    {
      if ts == [] {
        return;
      }
      ghost var before, done := nextSubcaseStack, fullyTraversed;
      assert reachedLeaf && before == [] ==> Untouched(prefix + [ts[0].sig], done);
      assert forall j | 0 <= j < |ts[1..]| :: ts[1..][j] == ts[j + 1];
      var entered := Enter(ts[0].sig);
      if entered {
        GoDown(ts, prefix, before, done);
        RunBody(ts[0].children, prefix + [ts[0].sig]);
        if ts[0].children == [] {
          visited := visited + [subcaseStack];
        }
        Leave();
        assert subcaseStack[|prefix|] == ts[0].sig by {
          assert subcaseStack[..|prefix| + 1][|prefix|] == ts[0].sig;
        }
        SiblingsStayUntouched(ts, prefix, subcaseStack, done);
        PassThrough(ts, prefix, before, subcaseStack, nextSubcaseStack, fullyTraversed);
      }
      RunBody(ts[1..], prefix);
      if !entered && !old(reachedLeaf) {
        PassBy(ts, prefix, before, subcaseStack, nextSubcaseStack, fullyTraversed);
      }
    }

    /** Runs the test case until no subcase is left to run. */
    method RunTestCase(ts: seq<Tree>)
      requires WellNamed(ts) && nextSubcaseStack == []
      modifies this
      ensures visited == old(visited) + Leaves(ts, []) && NoRepeats(Leaves(ts, []))
      ensures nextSubcaseStack == []
    {
      LeavesAreDistinct(ts, []);
      fullyTraversed := {};
      var runTest := true;
      ghost var left := Leaves(ts, []);
      assert UntouchedFrom(ts, [], Rel([], []), {});
      while runTest
        invariant runTest ==> Going(ts, [], nextSubcaseStack, fullyTraversed)
                              && left == LeavesFrom(ts, [], Rel(nextSubcaseStack, []))
        invariant !runTest ==> left == [] && nextSubcaseStack == []
        invariant old(visited) + Leaves(ts, []) == visited + left
        decreases runTest, |left|
      {
        reachedLeaf := false;
        subcaseStack := [];
        currentDepth := 0;
        ghost var before := nextSubcaseStack;
        RunBody(ts, []);
        left := Remaining(ts, [], nextSubcaseStack);
        if nextSubcaseStack == [] {
          runTest := false;
        }
      }
    }
  }
}
