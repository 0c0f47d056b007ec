/** The traversal `bfs` as the connectivity rule runs it: despite its name, a last-in
    first-out walk over a stack, from a root topic along topic-typed neighbours. A key is
    pushed only the first time it is seen; the root is not marked as seen, so a walk can
    pop it a second time. The callback's record is the sequence of popped keys. */
module Walk {
  import opened Errors
  import opened Keys
  import opened NoteText
  import opened Disk

  /** `only_topics(node)`: the topic-typed neighbours of `u`. */
  function TopicNeighbors(fs: FS, u: string): Result<seq<string>>
  {
    NeighborsOfTypes(fs, u, {"topic"})
  }

  /** Every key some file links to. */
  ghost function AllLinks(fs: FS): set<string>
  {
    set p, k | p in fs && fs[p].File? && k in Links(fs[p].text) :: k
  }

  lemma NeighborsAreLinks(fs: FS, u: string)
    requires TopicNeighbors(fs, u).Ok?
    ensures forall x :: x in TopicNeighbors(fs, u).value ==> x in AllLinks(fs)
  {
    var p := NodePath(u);
    assert p in fs && fs[p].File?;
    forall x | x in TopicNeighbors(fs, u).value ensures x in AllLinks(fs) {
      assert x in Links(fs[p].text);
    }
  }

  /** The inner loop: each neighbour not yet seen is marked and pushed, in order. */
  function PushNew(stack: seq<string>, seen: set<string>, ns: seq<string>): (r: (seq<string>, set<string>))
    ensures r.1 == seen + set x | x in ns
    ensures (forall x :: x in ns ==> x in seen) ==> r == (stack, seen)
    decreases |ns|
  {
    if ns == [] then (stack, seen)
    else
      var r := PushNew(stack, seen, ns[..|ns| - 1]);
      var n := ns[|ns| - 1];
      LastSplit(ns);
      if n in r.1 then r else (r.0 + [n], r.1 + {n})
  }

  lemma LastSplit(ns: seq<string>)
    requires ns != []
    ensures ns == ns[..|ns| - 1] + [ns[|ns| - 1]]
    ensures forall x :: x in ns <==> x in ns[..|ns| - 1] || x == ns[|ns| - 1]
  {
  }

  /** Each key not seen before is pushed exactly once; nothing else is pushed. */
  lemma {:induction false} PushNewCounts(stack: seq<string>, seen: set<string>, ns: seq<string>, x: string)
    ensures multiset(PushNew(stack, seen, ns).0)[x] == multiset(stack)[x] + (if x in ns && x !in seen then 1 else 0)
    decreases |ns|
  {
    if ns != [] {
      PushNewCounts(stack, seen, ns[..|ns| - 1], x);
      LastSplit(ns);
    }
  }

  /** The walk's measure: a push of something new shrinks the unseen links, and
      otherwise nothing is pushed. */
  lemma PushNewDecreases(fs: FS, stack: seq<string>, seen: set<string>, ns: seq<string>)
    requires seen <= AllLinks(fs) && forall x :: x in ns ==> x in AllLinks(fs)
    ensures var r := PushNew(stack, seen, ns);
      r.1 <= AllLinks(fs) && (AllLinks(fs) - r.1 < AllLinks(fs) - seen || r == (stack, seen))
  {
    var r := PushNew(stack, seen, ns);
    if exists x :: x in ns && x !in seen {
      var x :| x in ns && x !in seen;
      assert x in AllLinks(fs) - seen && x !in AllLinks(fs) - r.1;
    }
  }

  /** The outer loop from a given stack, seen set and record of pops. */
  function WalkFrom(fs: FS, stack: seq<string>, seen: set<string>, calls: seq<string>): Result<seq<string>>
    requires seen <= AllLinks(fs)
    decreases AllLinks(fs) - seen, |stack|
  {
    if stack == [] then Ok(calls)
    else
      var u := stack[|stack| - 1];
      var ns := TopicNeighbors(fs, u);
      if ns.Err? then Err(ns.error)
      else
        NeighborsAreLinks(fs, u);
        PushNewDecreases(fs, stack[..|stack| - 1], seen, ns.value);
        var next := PushNew(stack[..|stack| - 1], seen, ns.value);
        WalkFrom(fs, next.0, next.1, calls + [u])
  }

  /** `bfs(root, only_topics, callback)`: the keys the callback receives, in order. */
  function WalkSpec(fs: FS, root: string): Result<seq<string>>
  {
    WalkFrom(fs, [root], {}, [])
  }

  lemma PrefixStep(vs: seq<string>, j: nat)
    requires j < |vs|
    ensures vs[..j + 1][..j] == vs[..j] && vs[..j + 1][j] == vs[j]
  {
  }

  /** The walk as the source runs it, over a stack and a seen set. */
  method Walk(fs: FS, root: string) returns (r: Result<seq<string>>)
    ensures r == WalkSpec(fs, root)
  {
    var stack := [root];
    var seen: set<string> := {};
    var calls: seq<string> := [];
    while stack != []
      invariant seen <= AllLinks(fs)
      invariant WalkFrom(fs, stack, seen, calls) == WalkSpec(fs, root)
      decreases AllLinks(fs) - seen, |stack|
    {
      var u := stack[|stack| - 1];
      var ns := TopicNeighbors(fs, u);
      if ns.Err? {
        return Err(ns.error);
      }
      NeighborsAreLinks(fs, u);
      ghost var stack0, seen0 := stack[..|stack| - 1], seen;
      PushNewDecreases(fs, stack0, seen0, ns.value);
      stack, seen := PushNeighbors(stack[..|stack| - 1], seen, ns.value);
      calls := calls + [u];
    }
    return Ok(calls);
  }

  /** The inner loop of the walk: push each neighbour not seen before, marking it seen. */
  method PushNeighbors(stack0: seq<string>, seen0: set<string>, vs: seq<string>) returns (stack: seq<string>, seen: set<string>)
    ensures (stack, seen) == PushNew(stack0, seen0, vs)
  {
    stack, seen := stack0, seen0;
    var j := 0;
    while j < |vs|
      invariant 0 <= j <= |vs|
      invariant (stack, seen) == PushNew(stack0, seen0, vs[..j])
    {
      var n := vs[j];
      PrefixStep(vs, j);
      if n !in seen {
        seen := seen + {n};
        stack := stack + [n];
      }
      j := j + 1;
    }
    assert vs[..j] == vs;
  }

  /** The topic neighbours of `u`, none when they cannot be resolved. */
  function TopicLinks(fs: FS, u: string): seq<string>
  {
    var r := TopicNeighbors(fs, u);
    if r.Ok? then r.value else []
  }

  /** `S` holds the topic neighbours of each of its keys, all of which resolve. */
  ghost predicate Closed(fs: FS, S: set<string>)
  {
    forall c :: c in S ==> TopicNeighbors(fs, c).Ok? && forall x :: x in TopicLinks(fs, c) ==> x in S
  }

  /** What the walk keeps true between pops. */
  ghost predicate Covered(stack: seq<string>, seen: set<string>, calls: seq<string>)
  {
    forall x :: x in seen ==> x in calls || x in stack
  }

  ghost predicate ClosedSoFar(fs: FS, seen: set<string>, calls: seq<string>)
  {
    forall c :: c in calls ==> TopicNeighbors(fs, c).Ok? && forall x :: x in TopicLinks(fs, c) ==> x in seen
  }

  ghost predicate Started(root: string, stack: seq<string>, calls: seq<string>)
  {
    (calls == [] ==> stack == [root]) && (calls != [] ==> calls[0] == root)
  }

  /** The topic neighbours as a function of the key. */
  function TopicLinksOf(fs: FS): string -> seq<string>
  {
    u => TopicLinks(fs, u)
  }

  /** `x` is a neighbour under `N` of one of the first `n` keys. */
  ghost predicate LinkedFrom(N: string -> seq<string>, calls: seq<string>, n: int, x: string)
    requires 0 <= n <= |calls|
  {
    exists i :: 0 <= i < n && x in N(calls[i])
  }

  lemma LinkedFromExtended(N: string -> seq<string>, calls: seq<string>, n: int, x: string, u: string)
    requires 0 <= n <= |calls| && LinkedFrom(N, calls, n, x)
    ensures LinkedFrom(N, calls + [u], n, x)
  {
    var i :| 0 <= i < n && x in N(calls[i]);
    assert (calls + [u])[i] == calls[i];
  }

  ghost predicate StackReached(N: string -> seq<string>, stack: seq<string>, calls: seq<string>)
  {
    calls != [] ==> forall x :: x in stack ==> LinkedFrom(N, calls, |calls|, x)
  }

  /** Each key after the first is a neighbour under `N` of a key before it. */
  ghost predicate ChainedBy(N: string -> seq<string>, calls: seq<string>)
  {
    forall j :: 0 < j < |calls| ==> LinkedFrom(N, calls, j, calls[j])
  }

  /** Each popped key after the first is a topic neighbour of one popped before it. */
  ghost predicate Chained(fs: FS, calls: seq<string>)
  {
    ChainedBy(TopicLinksOf(fs), calls)
  }

  ghost predicate Counted(root: string, stack: seq<string>, seen: set<string>, calls: seq<string>)
  {
    forall x :: multiset(calls + stack)[x] == (if x in seen then 1 else 0) + (if x == root then 1 else 0)
  }

  ghost predicate WalkInv(fs: FS, root: string, stack: seq<string>, seen: set<string>, calls: seq<string>)
  {
    seen <= AllLinks(fs) && Covered(stack, seen, calls) && ClosedSoFar(fs, seen, calls) &&
    Started(root, stack, calls) && StackReached(TopicLinksOf(fs), stack, calls) && Chained(fs, calls) &&
    Counted(root, stack, seen, calls)
  }

  lemma StepCovered(stack: seq<string>, seen: set<string>, calls: seq<string>, ns: seq<string>)
    requires stack != [] && Covered(stack, seen, calls)
    ensures var next := PushNew(stack[..|stack| - 1], seen, ns);
      Covered(next.0, next.1, calls + [stack[|stack| - 1]])
  {
    var rest := stack[..|stack| - 1];
    var next := PushNew(rest, seen, ns);
    assert stack == rest + [stack[|stack| - 1]];
    forall x | x in next.1 ensures x in calls + [stack[|stack| - 1]] || x in next.0 {
      PushNewCounts(rest, seen, ns, x);
      if x in rest {
        assert multiset(rest)[x] > 0;
      } else if x !in seen {
        assert x in ns;
      }
    }
  }

  lemma StepClosed(fs: FS, stack: seq<string>, seen: set<string>, calls: seq<string>)
    requires stack != [] && ClosedSoFar(fs, seen, calls) && TopicNeighbors(fs, stack[|stack| - 1]).Ok?
    ensures var u := stack[|stack| - 1];
      var next := PushNew(stack[..|stack| - 1], seen, TopicLinks(fs, u));
      ClosedSoFar(fs, next.1, calls + [u])
  {
    var u := stack[|stack| - 1];
    var ns := TopicLinks(fs, u);
    var seen' := PushNew(stack[..|stack| - 1], seen, ns).1;
    assert seen' == seen + set x | x in ns;
    forall c | c in calls + [u]
      ensures TopicNeighbors(fs, c).Ok? && forall x :: x in TopicLinks(fs, c) ==> x in seen'
    {
      if c != u {
        assert c in calls;
      }
    }
  }

  lemma StepReached(N: string -> seq<string>, root: string, stack: seq<string>, seen: set<string>, calls: seq<string>)
    requires stack != [] && Started(root, stack, calls) && StackReached(N, stack, calls)
    ensures var u := stack[|stack| - 1];
      var next := PushNew(stack[..|stack| - 1], seen, N(u));
      StackReached(N, next.0, calls + [u]) && (calls != [] ==> LinkedFrom(N, calls, |calls|, u))
  {
    var u := stack[|stack| - 1];
    var rest := stack[..|stack| - 1];
    var ns := N(u);
    var next := PushNew(rest, seen, ns);
    var calls' := calls + [u];
    assert u in stack;
    forall x | x in next.0 ensures LinkedFrom(N, calls', |calls'|, x) {
      assert multiset(next.0)[x] > 0;
      PushNewCounts(rest, seen, ns, x);
      if x in rest {
        assert x in stack;
        LinkedFromExtended(N, calls, |calls|, x, u);
      } else {
        assert x in ns && calls'[|calls|] == u;
      }
    }
  }

  lemma StepChained(N: string -> seq<string>, calls: seq<string>, u: string)
    requires ChainedBy(N, calls) && (calls != [] ==> LinkedFrom(N, calls, |calls|, u))
    ensures ChainedBy(N, calls + [u])
  {
    var calls' := calls + [u];
    forall j | 0 < j < |calls'| ensures LinkedFrom(N, calls', j, calls'[j]) {
      if j < |calls| {
        LinkedFromExtended(N, calls, j, calls[j], u);
        assert calls'[j] == calls[j];
      } else {
        LinkedFromExtended(N, calls, |calls|, u, u);
        assert calls'[j] == u;
      }
    }
  }

  lemma StepCounted(root: string, stack: seq<string>, seen: set<string>, calls: seq<string>, ns: seq<string>)
    requires stack != [] && Counted(root, stack, seen, calls)
    ensures var next := PushNew(stack[..|stack| - 1], seen, ns);
      Counted(root, next.0, next.1, calls + [stack[|stack| - 1]])
  {
    var u := stack[|stack| - 1];
    var rest := stack[..|stack| - 1];
    var next := PushNew(rest, seen, ns);
    PopMultiset(calls, stack);
    forall x ensures multiset(calls + [u] + next.0)[x] == (if x in next.1 then 1 else 0) + (if x == root then 1 else 0) {
      assert multiset(calls + [u] + next.0)[x] == multiset(calls + [u])[x] + multiset(next.0)[x];
      PushNewCounts(rest, seen, ns, x);
    }
  }

  lemma PopMultiset(calls: seq<string>, stack: seq<string>)
    requires stack != []
    ensures multiset(calls + stack) == multiset(calls + [stack[|stack| - 1]]) + multiset(stack[..|stack| - 1])
  {
    assert stack == stack[..|stack| - 1] + [stack[|stack| - 1]];
  }

  lemma StepInv(fs: FS, root: string, stack: seq<string>, seen: set<string>, calls: seq<string>)
    requires stack != [] && WalkInv(fs, root, stack, seen, calls) && TopicNeighbors(fs, stack[|stack| - 1]).Ok?
    ensures var u := stack[|stack| - 1];
      var next := PushNew(stack[..|stack| - 1], seen, TopicLinks(fs, u));
      WalkInv(fs, root, next.0, next.1, calls + [u])
  {
    var u := stack[|stack| - 1];
    var ns := TopicLinks(fs, u);
    NeighborsAreLinks(fs, u);
    PushNewDecreases(fs, stack[..|stack| - 1], seen, ns);
    StepCovered(stack, seen, calls, ns);
    StepClosed(fs, stack, seen, calls);
    assert TopicLinksOf(fs)(u) == ns;
    StepReached(TopicLinksOf(fs), root, stack, seen, calls);
    StepChained(TopicLinksOf(fs), calls, u);
    StepCounted(root, stack, seen, calls, ns);
  }

  /** From any state the invariant holds in, a walk that ends has popped the root first,
      closed its record under topic neighbours, reached each key from an earlier one, and
      popped no key twice but the root, at most twice. */
  lemma {:induction false} WalkFromProps(fs: FS, root: string, stack: seq<string>, seen: set<string>, calls: seq<string>)
    requires WalkInv(fs, root, stack, seen, calls)
    ensures var r := WalkFrom(fs, stack, seen, calls);
      r.Ok? ==> (r.value != [] && r.value[0] == root && Closed(fs, set x | x in r.value) && Chained(fs, r.value) &&
        forall x :: multiset(r.value)[x] <= if x == root then 2 else 1)
    decreases AllLinks(fs) - seen, |stack|
  {
    if stack == [] {
      forall c | c in calls ensures TopicNeighbors(fs, c).Ok? && forall x :: x in TopicLinks(fs, c) ==> x in calls {
      }
      forall x ensures multiset(calls)[x] <= if x == root then 2 else 1 {
        assert calls + stack == calls;
      }
    } else {
      var u := stack[|stack| - 1];
      if TopicNeighbors(fs, u).Ok? {
        var ns := TopicLinks(fs, u);
        var next := PushNew(stack[..|stack| - 1], seen, ns);
        StepInv(fs, root, stack, seen, calls);
        PushNewDecreases(fs, stack[..|stack| - 1], seen, ns);
        WalkFromProps(fs, root, next.0, next.1, calls + [u]);
      }
    }
  }

  /** A walk that ends well visits a set closed under topic neighbours, every key of which
      is reached from the root through keys visited before it; it pops the root first and
      no other key more than once. */
  lemma WalkVisitsClosure(fs: FS, root: string)
    ensures var r := WalkSpec(fs, root);
      r.Ok? ==> (r.value != [] && r.value[0] == root && Closed(fs, set x | x in r.value) && Chained(fs, r.value) &&
        forall x :: multiset(r.value)[x] <= if x == root then 2 else 1)
  {
    assert WalkInv(fs, root, [root], {}, []);
    WalkFromProps(fs, root, [root], {}, []);
  }

  /** Within any closed set holding the root, the walk raises nothing and stays inside it:
      with the closure above, the walk ends well exactly when such a set exists, and then
      it visits the least one. */
  lemma WalkStaysWithin(fs: FS, root: string, S: set<string>)
    requires root in S && Closed(fs, S)
    ensures var r := WalkSpec(fs, root);
      r.Ok? && forall x :: x in r.value ==> x in S
  {
    WithinFrom(fs, S, [root], {}, []);
  }

  lemma {:induction false} WithinFrom(fs: FS, S: set<string>, stack: seq<string>, seen: set<string>, calls: seq<string>)
    requires seen <= AllLinks(fs) && Closed(fs, S)
    requires forall x :: x in stack ==> x in S
    requires forall x :: x in calls ==> x in S
    ensures var r := WalkFrom(fs, stack, seen, calls);
      r.Ok? && forall x :: x in r.value ==> x in S
    decreases AllLinks(fs) - seen, |stack|
  {
    if stack != [] {
      var u := stack[|stack| - 1];
      assert u in S;
      var ns := TopicLinks(fs, u);
      NeighborsAreLinks(fs, u);
      var next := PushNew(stack[..|stack| - 1], seen, ns);
      PushNewDecreases(fs, stack[..|stack| - 1], seen, ns);
      forall x | x in next.0 ensures x in S {
        assert multiset(next.0)[x] > 0;
        PushNewCounts(stack[..|stack| - 1], seen, ns, x);
        if x !in ns {
          assert x in stack[..|stack| - 1];
        }
      }
      WithinFrom(fs, S, next.0, next.1, calls + [u]);
    }
  }
}
