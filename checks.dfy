/** The validation engine: six rules, run in a fixed order into one list of failures.
    A dangling link stops the rules after the first; any other exception raised by a
    rule propagates out of the whole check. */
module Checks {
  import opened Errors
  import opened Keys
  import opened NoteText
  import opened Disk
  import opened Walk
  import opened Text

  /** One failure message, by its kind and the keys it names. */
  datatype Failure =
    | Dangling(key: string, note: string)        // Link to nonexistant "<key>" in "<note>"
    | OneWay(from: string, to: string)           // Link from "<from>" to "<to>" is not bidirectional.
    | NoTopicLinked(project: string)             // No topics linked in "<project>".
    | NoTopicOrProjectLinked(thought: string)    // No topics or projects linked in "<thought>".
    | NoPredecessor(node: string)                // "<node>" has no predecessor.
    | NotConnected(topic: string, root: string)  // Topic "<topic>" not connected to "<root>"

  /** The enumerations the rules walk over, each in the order the directory listing gave. */
  datatype Listing = Listing(
    topics: seq<string>, thoughts: seq<string>, journal: seq<string>, projects: seq<string>,
    images: seq<string>, files: seq<string>, raw: seq<string>)

  /** `network.notes`. */
  function Notes(L: Listing): seq<string>
  {
    L.topics + L.thoughts + L.journal + L.projects
  }

  lemma HeadOrTail(s: seq<string>)
    requires s != []
    ensures forall m :: m in s <==> m == s[0] || m in s[1..]
  {
    assert s == [s[0]] + s[1..];
  }

  // ---------------------------------------------------------------------------------
  // Rule 1: every link of every note exists.

  /** The messages for the dangling links among `ks`, links of `note`: one per occurrence. */
  function MissingLinks(fs: FS, ks: seq<string>, note: string): (r: seq<Failure>)
    ensures forall f :: f in r ==> f.Dangling? && f.note == note && f.key in ks && !Exists(fs, f.key)
    decreases |ks|
  {
    if ks == [] then []
    else
      var rest := MissingLinks(fs, ks[1..], note);
      if Exists(fs, ks[0]) then rest else [Dangling(ks[0], note)] + rest
  }

  /** One message per occurrence of a dangling link, none for a link that exists. */
  lemma {:induction false} MissingLinksCount(fs: FS, ks: seq<string>, note: string, k: string)
    ensures multiset(MissingLinks(fs, ks, note))[Dangling(k, note)] == if Exists(fs, k) then 0 else multiset(ks)[k]
    decreases |ks|
  {
    if ks != [] {
      MissingLinksCount(fs, ks[1..], note, k);
      CountHead(ks, k);
    }
  }

  lemma CountHead<T>(s: seq<T>, x: T)
    requires s != []
    ensures multiset(s)[x] == (if s[0] == x then 1 else 0) + multiset(s[1..])[x]
  {
    assert s == [s[0]] + s[1..];
  }

  lemma CountConcat<T>(a: seq<T>, b: seq<T>, x: T)
    ensures multiset(a + b)[x] == multiset(a)[x] + multiset(b)[x]
  {
  }

  lemma NotCounted<T>(s: seq<T>, x: T)
    requires x !in s
    ensures multiset(s)[x] == 0
  {
  }

  /** `_all_links_are_existing` over the notes in listing order (the messages only; the rule
      is fatal when the list is non-empty). */
  function DanglingLinks(fs: FS, notes: seq<string>): (r: Result<seq<Failure>>)
    ensures r.Err? ==> exists i :: 0 <= i < |notes| && Contents(fs, notes[i]) == Err(r.error)
    decreases |notes|
  {
    if notes == [] then Ok([])
    else
      var c := Contents(fs, notes[0]);
      if c.Err? then Err(c.error)
      else
        var rest := DanglingLinks(fs, notes[1..]);
        if rest.Err? then
          assert forall i :: 1 <= i < |notes| ==> notes[i] == notes[1..][i - 1];
          rest
        else Ok(MissingLinks(fs, Links(c.value), notes[0]) + rest.value)
  }

  /** The rule raises exactly when some note cannot be read. */
  lemma {:induction false} DanglingLinksRaises(fs: FS, notes: seq<string>)
    ensures DanglingLinks(fs, notes).Err? <==> exists n :: n in notes && Contents(fs, n).Err?
    decreases |notes|
  {
    if notes != [] {
      DanglingLinksRaises(fs, notes[1..]);
      HeadOrTail(notes);
      if Contents(fs, notes[0]).Err? {
        assert notes[0] in notes;
      } else if exists n :: n in notes && Contents(fs, n).Err? {
        var n :| n in notes && Contents(fs, n).Err?;
        assert n in notes[1..];
      }
    }
  }

  /** Each message names a note, a link it holds, and that link's absence. */
  lemma {:induction false} DanglingLinksNamed(fs: FS, notes: seq<string>)
    ensures var r := DanglingLinks(fs, notes);
      r.Ok? ==> forall f :: f in r.value ==> f.Dangling? && f.note in notes && f.key in LinksAt(fs, f.note) && !Exists(fs, f.key)
    decreases |notes|
  {
    if notes != [] {
      DanglingLinksNamed(fs, notes[1..]);
    }
  }

  /** A note listed once gets one message per occurrence of each dangling link it holds. */
  lemma {:induction false} DanglingLinksCounted(fs: FS, notes: seq<string>, n: string, k: string)
    requires DanglingLinks(fs, notes).Ok? && multiset(notes)[n] == 1
    ensures multiset(DanglingLinks(fs, notes).value)[Dangling(k, n)] ==
      if Exists(fs, k) then 0 else multiset(LinksAt(fs, n))[k]
    decreases |notes|
  {
    CountHead(notes, n);
    var c := Contents(fs, notes[0]);
    var here := MissingLinks(fs, Links(c.value), notes[0]);
    var rest := DanglingLinks(fs, notes[1..]);
    assert DanglingLinks(fs, notes).value == here + rest.value;
    CountConcat(here, rest.value, Dangling(k, n));
    if notes[0] == n {
      DanglingLinksNamed(fs, notes[1..]);
      NotCounted(rest.value, Dangling(k, n));
      MissingLinksCount(fs, Links(c.value), n, k);
    } else {
      NotCounted(here, Dangling(k, n));
      DanglingLinksCounted(fs, notes[1..], n, k);
    }
  }

  /** Every link of the note `n` exists. */
  predicate LinksResolve(fs: FS, n: string)
  {
    forall k :: k in LinksAt(fs, n) ==> Exists(fs, k)
  }

  /** A readable note adds no message exactly when its links all exist. */
  lemma MissingLinksNone(fs: FS, n: string)
    requires Contents(fs, n).Ok?
    ensures MissingLinks(fs, LinksAt(fs, n), n) == [] <==> LinksResolve(fs, n)
  {
    NoneMissing(fs, LinksAt(fs, n), n);
  }

  lemma {:induction false} NoneMissing(fs: FS, ks: seq<string>, n: string)
    ensures MissingLinks(fs, ks, n) == [] <==> forall k :: k in ks ==> Exists(fs, k)
    decreases |ks|
  {
    if ks != [] {
      NoneMissing(fs, ks[1..], n);
      HeadOrTail(ks);
    }
  }

  /** The rule reports nothing exactly when every link of every note exists. */
  lemma {:induction false} DanglingLinksNone(fs: FS, notes: seq<string>)
    ensures var r := DanglingLinks(fs, notes);
      r.Ok? ==> (r.value == [] <==> forall n :: n in notes ==> LinksResolve(fs, n))
    decreases |notes|
  {
    if notes != [] {
      var n := notes[0];
      DanglingLinksNone(fs, notes[1..]);
      HeadOrTail(notes);
      if Contents(fs, n).Ok? {
        MissingLinksNone(fs, n);
      }
    }
  }

  // ---------------------------------------------------------------------------------
  // Rule 2: links between notes are bidirectional.

  /** For note `u` and its note-typed neighbours `vs`, in order: one message for each that
      does not link back, found by scanning its links lazily. */
  function OneWayFrom(fs: FS, u: string, vs: seq<string>): (r: Result<seq<Failure>>)
    ensures r.Ok? ==> forall f :: f in r.value ==> f.OneWay? && f.from == u && f.to in vs && u !in LinksAt(fs, f.to)
    ensures r.Ok? ==> (r.value == [] <==> forall v :: v in vs ==> u in LinksAt(fs, v))
    decreases |vs|
  {
    if vs == [] then Ok([])
    else
      var back := LinksTo(fs, vs[0], u);
      if back.Err? then Err(back.error)
      else
        var rest := OneWayFrom(fs, u, vs[1..]);
        HeadOrTail(vs);
        if rest.Err? then rest
        else Ok((if back.value then [] else [OneWay(u, vs[0])]) + rest.value)
  }

  /** `_links_between_notes_are_bidirectional` for one note: its neighbours are resolved
      eagerly, the note-typed ones kept, and each is asked whether it links back. */
  function OneWayIn(fs: FS, u: string): (r: Result<seq<Failure>>)
    ensures r.Ok? ==> forall f :: f in r.value ==>
      f.OneWay? && f.from == u && f.to in LinksAt(fs, u) && KeyType(f.to) in NoteTypes && u !in LinksAt(fs, f.to)
    ensures r.Ok? ==> (r.value == [] <==> Recip(fs, u))
  {
    var vs := NeighborsOfTypes(fs, u, NoteTypes);
    if vs.Err? then Err(vs.error) else OneWayFrom(fs, u, vs.value)
  }

  /** The rule over the notes in listing order. */
  function OneWayLinks(fs: FS, notes: seq<string>): (r: Result<seq<Failure>>)
    decreases |notes|
  {
    if notes == [] then Ok([])
    else
      var here := OneWayIn(fs, notes[0]);
      if here.Err? then here
      else
        var rest := OneWayLinks(fs, notes[1..]);
        if rest.Err? then rest else Ok(here.value + rest.value)
  }

  /** The rule reports nothing exactly when every note is answered by each note it links to. */
  lemma {:induction false} OneWayLinksNone(fs: FS, notes: seq<string>)
    ensures var r := OneWayLinks(fs, notes);
      r.Ok? ==> (r.value == [] <==> forall x :: x in notes ==> Recip(fs, x))
    decreases |notes|
  {
    if notes != [] {
      OneWayLinksNone(fs, notes[1..]);
      HeadOrTail(notes);
    }
  }

  /** Over a sound network the rule raises nothing. */
  lemma {:induction false} OneWayLinksSound(fs: FS, K: set<string>, notes: seq<string>)
    requires Sound(fs, K) && forall x :: x in notes ==> x in K && KeyType(x) in NoteTypes
    ensures OneWayLinks(fs, notes).Ok?
    decreases |notes|
  {
    if notes != [] {
      HeadOrTail(notes);
      OneWayLinksSound(fs, K, notes[1..]);
      OneWayInSound(fs, K, notes[0]);
    }
  }

  lemma OneWayInSound(fs: FS, K: set<string>, u: string)
    requires Sound(fs, K) && u in K && KeyType(u) in NoteTypes
    ensures OneWayIn(fs, u).Ok?
  {
    assert forall y :: y in LinksAt(fs, u) ==> y in K;
    var vs := NeighborsOfTypes(fs, u, NoteTypes).value;
    OneWayFromSound(fs, K, u, vs);
  }

  lemma {:induction false} OneWayFromSound(fs: FS, K: set<string>, u: string, vs: seq<string>)
    requires Sound(fs, K) && forall v :: v in vs ==> v in K && KeyType(v) in NoteTypes
    ensures OneWayFrom(fs, u, vs).Ok?
    decreases |vs|
  {
    if vs != [] {
      HeadOrTail(vs);
      SoundLinksTo(fs, K, vs[0], u);
      OneWayFromSound(fs, K, u, vs[1..]);
    }
  }

  /** After `fix_bidirectional_links` on a canonical sound network, the rule that checks
      bidirectionality reports nothing. */
  lemma FixLeavesNoOneWayLinks(fs: FS, K: set<string>, notes: seq<string>, fuel: nat)
    requires Sound(fs, K) && Canonical(K) && fuel >= 2
    requires forall x :: x in notes ==> x in K && KeyType(x) in NoteTypes
    ensures FixAll(fs, notes, fuel).err == None
    ensures OneWayLinks(FixAll(fs, notes, fuel).fs, notes) == Ok([])
  {
    assert forall i :: 0 <= i < |notes| ==> notes[i] in notes;
    FixReciprocates(fs, K, notes, fuel);
    var fs1 := FixAll(fs, notes, fuel).fs;
    OneWayLinksSound(fs1, K, notes);
    OneWayLinksNone(fs1, notes);
  }

  // ---------------------------------------------------------------------------------
  // Rules 3 and 4: projects link to topics; thoughts link to topics or projects.

  /** No neighbour of note `n` has a type in `types`. */
  predicate NoneOfTypes(fs: FS, n: string, types: set<string>)
  {
    forall y :: y in LinksAt(fs, n) ==> KeyType(y) !in types
  }

  /** The notes among `ns`, in order, none of whose neighbours has a type in `types`; each
      note's neighbours are all resolved first. */
  function Unlinked(fs: FS, ns: seq<string>, types: set<string>): (r: Result<seq<string>>)
    ensures r.Ok? <==> forall n :: n in ns ==> Contents(fs, n).Ok? && LinksResolve(fs, n)
    ensures r.Ok? ==> forall n :: n in r.value <==> n in ns && NoneOfTypes(fs, n, types)
    decreases |ns|
  {
    if ns == [] then Ok([])
    else
      var linked := NeighborsOfTypes(fs, ns[0], types);
      HeadOrTail(ns);
      if linked.Err? then Err(linked.error)
      else
        var rest := Unlinked(fs, ns[1..], types);
        if rest.Err? then rest
        else
          assert linked.value == [] <==> NoneOfTypes(fs, ns[0], types) by {
            if linked.value != [] {
              assert linked.value[0] in linked.value;
            }
          }
          Ok((if linked.value == [] then [ns[0]] else []) + rest.value)
  }

  /** `_projects_link_to_topics`: a message for each project linking to no topic. */
  function ProjectsWithoutTopics(fs: FS, projects: seq<string>): (r: Result<seq<Failure>>)
    ensures r.Ok? <==> forall n :: n in projects ==> Contents(fs, n).Ok? && LinksResolve(fs, n)
    ensures r.Ok? ==> forall f :: f in r.value ==> f.NoTopicLinked?
    ensures r.Ok? ==> forall p :: NoTopicLinked(p) in r.value <==>
      p in projects && NoneOfTypes(fs, p, {"topic"})
  {
    var u := Unlinked(fs, projects, {"topic"});
    if u.Err? then Err(u.error)
    else
      Ok(NoTopicMessages(u.value))
  }

  /** `_thoughts_link_to_topics_or_projects`: a message for each thought linking to no topic
      and no project. */
  function ThoughtsWithoutTopicsOrProjects(fs: FS, thoughts: seq<string>): (r: Result<seq<Failure>>)
    ensures r.Ok? <==> forall n :: n in thoughts ==> Contents(fs, n).Ok? && LinksResolve(fs, n)
    ensures r.Ok? ==> forall f :: f in r.value ==> f.NoTopicOrProjectLinked?
    ensures r.Ok? ==> forall t :: NoTopicOrProjectLinked(t) in r.value <==>
      t in thoughts && NoneOfTypes(fs, t, {"topic", "project"})
  {
    var u := Unlinked(fs, thoughts, {"topic", "project"});
    if u.Err? then Err(u.error)
    else
      Ok(NoTopicOrProjectMessages(u.value))
  }

  /** `No topics linked in "<p>".` for each project, in order. */
  function NoTopicMessages(ps: seq<string>): (r: seq<Failure>)
    ensures forall f :: f in r ==> f.NoTopicLinked?
    ensures forall p :: NoTopicLinked(p) in r <==> p in ps
  {
    if ps == [] then [] else [NoTopicLinked(ps[0])] + NoTopicMessages(ps[1..])
  }

  /** `No topics or projects linked in "<t>".` for each thought, in order. */
  function NoTopicOrProjectMessages(ts: seq<string>): (r: seq<Failure>)
    ensures forall f :: f in r ==> f.NoTopicOrProjectLinked?
    ensures forall t :: NoTopicOrProjectLinked(t) in r <==> t in ts
  {
    if ts == [] then [] else [NoTopicOrProjectLinked(ts[0])] + NoTopicOrProjectMessages(ts[1..])
  }

  // ---------------------------------------------------------------------------------
  // Rule 5: every attachment has a predecessor.

  /** `list(node.predecessors)` is non-empty: every note is asked in turn whether it links
      to `key` (each scan stops at its first match), and any of them raising stops it. */
  function HasPredecessor(fs: FS, notes: seq<string>, key: string): (r: Result<bool>)
    ensures r.Ok? ==> (r.value <==> exists n :: n in notes && key in LinksAt(fs, n))
    decreases |notes|
  {
    if notes == [] then Ok(false)
    else
      var here := LinksTo(fs, notes[0], key);
      if here.Err? then Err(here.error)
      else
        var rest := HasPredecessor(fs, notes[1..], key);
        HeadOrTail(notes);
        if rest.Err? then rest else Ok(here.value || rest.value)
  }

  /** `_non_notes_must_have_predecessor` over the attachments in listing order. */
  function Orphans(fs: FS, notes: seq<string>, nodes: seq<string>): (r: Result<seq<Failure>>)
    ensures r.Ok? ==> forall f :: f in r.value ==> f.NoPredecessor? && f.node in nodes
    ensures r.Ok? ==> forall x :: x in nodes ==>
      (NoPredecessor(x) in r.value <==> forall n :: n in notes ==> x !in LinksAt(fs, n))
    decreases |nodes|
  {
    if nodes == [] then Ok([])
    else
      var has := HasPredecessor(fs, notes, nodes[0]);
      if has.Err? then Err(has.error)
      else
        var rest := Orphans(fs, notes, nodes[1..]);
        HeadOrTail(nodes);
        if rest.Err? then rest
        else Ok((if has.value then [] else [NoPredecessor(nodes[0])]) + rest.value)
  }

  /** Over a sound network holding the notes, the rule raises nothing. */
  lemma {:induction false} HasPredecessorSound(fs: FS, K: set<string>, notes: seq<string>, key: string)
    requires Sound(fs, K) && forall x :: x in notes ==> x in K && KeyType(x) in NoteTypes
    ensures HasPredecessor(fs, notes, key) == Ok(exists n :: n in notes && key in LinksAt(fs, n))
    decreases |notes|
  {
    if notes != [] {
      HeadOrTail(notes);
      SoundLinksTo(fs, K, notes[0], key);
      HasPredecessorSound(fs, K, notes[1..], key);
    }
  }

  // ---------------------------------------------------------------------------------
  // Rule 6: topics are connected.

  /** What the connectivity rule adds: nothing, or one message naming one topic of a set
      (`set.pop()` picks which) and the root. */
  datatype Entry = Fixed(failure: Failure) | OneOf(topics: set<string>, root: string)

  /** The keys the walk's callback saw. */
  function Visited(calls: seq<string>): set<string>
  {
    set x | x in calls
  }

  /** `_topics_must_be_connected`, as corrected: from the first topic listed, walk along
      topic links; one message when some listed topic was not visited. */
  function Connectivity(fs: FS, topics: seq<string>): (r: Result<seq<Entry>>)
    ensures topics == [] ==> r == Err(NoTopics)
    ensures r.Ok? ==> |r.value| <= 1
    ensures r.Ok? && r.value != [] ==> r.value[0].OneOf? && r.value[0].root == topics[0] && r.value[0].topics != {}
    ensures r.Ok? ==> Poppable(r.value)
  {
    if topics == [] then Err(NoTopics)
    else
      var w := WalkSpec(fs, topics[0]);
      if w.Err? then Err(w.error)
      else
        var unvisited := (set t | t in topics) - Visited(w.value);
        if unvisited == {} then Ok([]) else Ok([OneOf(unvisited, topics[0])])
  }

  /** The rule names only topics outside every closed set holding the root, that is topics
      the root cannot reach; and it adds a message whenever such a topic is listed. */
  lemma ConnectivityReportsUnreached(fs: FS, topics: seq<string>)
    requires topics != [] && Connectivity(fs, topics).Ok?
    ensures var r := Connectivity(fs, topics).value;
      (r != [] ==> forall t :: t in r[0].topics ==>
        t in topics && exists S :: topics[0] in S && Closed(fs, S) && t !in S) &&
      (forall S, t :: topics[0] in S && Closed(fs, S) && t in topics && t !in S ==> r != [] && t in r[0].topics)
  {
    var w := WalkSpec(fs, topics[0]);
    WalkVisitsClosure(fs, topics[0]);
    var V := Visited(w.value);
    assert topics[0] in V by {
      assert w.value[0] == topics[0];
    }
    forall S, t | topics[0] in S && Closed(fs, S) && t in topics && t !in S
      ensures t in (set t | t in topics) - V
    {
      WalkStaysWithin(fs, topics[0], S);
    }
  }

  /** The rule as written: it compares the number of keys visited with the number of
      topics, and pops an arbitrary topic from the difference of the two sets. */
  function ConnectivityAsWritten(fs: FS, topics: seq<string>): (r: Result<seq<Entry>>)
    ensures topics == [] ==> r == Err(NoTopics)
  {
    if topics == [] then Err(NoTopics)
    else
      var w := WalkSpec(fs, topics[0]);
      if w.Err? then Err(w.error)
      else
        var all := set t | t in topics;
        var visited := Visited(w.value);
        if |visited| == |all| then Ok([])
        else
          var unvisited := all - visited;
          if unvisited == {} then Err(PopFromEmptySet) else Ok([OneOf(unvisited, topics[0])])
  }

  /** When the walk from the first topic meets only listed topics (no nested topic, no
      second spelling of a key), the rule as written and the corrected rule agree. */
  lemma ConnectivityAgrees(fs: FS, topics: seq<string>)
    requires topics != [] && WalkSpec(fs, topics[0]).Ok? ==>
      Visited(WalkSpec(fs, topics[0]).value) <= set t | t in topics
    ensures ConnectivityAsWritten(fs, topics) == Connectivity(fs, topics)
  {
    if topics != [] {
      var w := WalkSpec(fs, topics[0]);
      if w.Ok? {
        var all := set t | t in topics;
        var visited := Visited(w.value);
        SameSizeIff(visited, all);
      }
    }
  }

  /** A subset is as large as its superset exactly when nothing is left over. */
  lemma SameSizeIff(a: set<string>, b: set<string>)
    requires a <= b
    ensures |a| == |b| <==> b - a == {}
  {
    if b - a != {} {
      ProperSubsetSmaller(a, b);
    } else {
      forall x | x in b ensures x in a {
        assert x !in b - a;
      }
      assert a == b;
    }
  }

  /** A set strictly inside another has fewer elements. */
  lemma ProperSubsetSmaller(a: set<string>, b: set<string>)
    requires a <= b && b - a != {}
    ensures |a| < |b|
  {
    var x :| x in b - a;
    SubsetNoLarger(a, b - {x});
  }

  lemma {:induction false} SubsetNoLarger(a: set<string>, b: set<string>)
    requires a <= b
    ensures |a| <= |b|
    decreases |a|
  {
    if a != {} {
      var y :| y in a;
      SubsetNoLarger(a - {y}, b - {y});
    }
  }

  // ---------------------------------------------------------------------------------
  // The engine: the rules in registration order, into one list.

  datatype Rule =
    | AllLinksExist | LinksBidirectional | ProjectsLinkTopics
    | ThoughtsLinkTopicsOrProjects | NonNotesHavePredecessor | TopicsConnected

  /** `Network.CHECKS`, in the order the rules are registered. */
  const Rules: seq<Rule> := [AllLinksExist, LinksBidirectional, ProjectsLinkTopics,
                             ThoughtsLinkTopicsOrProjects, NonNotesHavePredecessor, TopicsConnected]

  /** `itertools.chain(network.images, network.files, network.raw)`. */
  function Attachments(L: Listing): seq<string>
  {
    L.images + L.files + L.raw
  }

  function Entries(r: Result<seq<Failure>>): (e: Result<seq<Entry>>)
    ensures r.Err? ==> e == Err(r.error)
    ensures r.Ok? ==> e.Ok? && |e.value| == |r.value| && forall i :: 0 <= i < |r.value| ==> e.value[i] == Fixed(r.value[i])
    ensures e.Ok? ==> Poppable(e.value)
  {
    if r.Err? then Err(r.error) else Ok(seq(|r.value|, i requires 0 <= i < |r.value| => Fixed(r.value[i])))
  }

  /** Every set of topics a message offers to pop from is non-empty. */
  predicate Poppable(entries: seq<Entry>)
  {
    forall i :: 0 <= i < |entries| ==> entries[i].OneOf? ==> entries[i].topics != {}
  }

  /** The messages one rule appends, or the exception it raises. */
  function RunRule(rule: Rule, fs: FS, L: Listing): (r: Result<seq<Entry>>)
    ensures r.Ok? ==> Poppable(r.value)
  {
    match rule
    case AllLinksExist => Entries(DanglingLinks(fs, Notes(L)))
    case LinksBidirectional => Entries(OneWayLinks(fs, Notes(L)))
    case ProjectsLinkTopics => Entries(ProjectsWithoutTopics(fs, L.projects))
    case ThoughtsLinkTopicsOrProjects => Entries(ThoughtsWithoutTopicsOrProjects(fs, L.thoughts))
    case NonNotesHavePredecessor => Entries(Orphans(fs, Notes(L), Attachments(L)))
    case TopicsConnected => Connectivity(fs, L.topics)
  }

  /** `FatalFailure`: the link-existence rule raises it when the list holds any message. */
  predicate Fatal(rule: Rule, failures: seq<Entry>)
  {
    rule == AllLinksExist && failures != []
  }

  /** `check` from the given rules on, with `acc` already in the list. */
  function CheckFrom(fs: FS, L: Listing, rules: seq<Rule>, acc: seq<Entry>): Result<seq<Entry>>
    decreases |rules|
  {
    if rules == [] then Ok(acc)
    else
      var r := RunRule(rules[0], fs, L);
      if r.Err? then Err(r.error)
      else if Fatal(rules[0], acc + r.value) then Ok(acc + r.value)
      else CheckFrom(fs, L, rules[1..], acc + r.value)
  }

  /** `Network.check`. */
  function CheckSpec(fs: FS, L: Listing): Result<seq<Entry>>
  {
    CheckFrom(fs, L, Rules, [])
  }

  /** The rules run in turn into one list, with no rule fatal: the first exception wins. */
  function RunAll(fs: FS, L: Listing, rules: seq<Rule>): (r: Result<seq<Entry>>)
    ensures r.Err? ==> exists i :: 0 <= i < |rules| && RunRule(rules[i], fs, L) == Err(r.error)
    decreases |rules|
  {
    if rules == [] then Ok([])
    else
      var here := RunRule(rules[0], fs, L);
      if here.Err? then here
      else
        var rest := RunAll(fs, L, rules[1..]);
        if rest.Err? then
          assert forall i :: 1 <= i < |rules| ==> rules[i] == rules[1..][i - 1];
          rest
        else Ok(here.value + rest.value)
  }

  /** Past the fatal rule, the check is every remaining rule run in turn. */
  lemma {:induction false} CheckFromRunsAll(fs: FS, L: Listing, rules: seq<Rule>, acc: seq<Entry>)
    requires AllLinksExist !in rules
    ensures var all := RunAll(fs, L, rules);
      CheckFrom(fs, L, rules, acc) == if all.Err? then Err(all.error) else Ok(acc + all.value)
    decreases |rules|
  {
    if rules != [] {
      var here := RunRule(rules[0], fs, L);
      NoFatalAhead(rules);
      if here.Ok? {
        CheckFromRunsAll(fs, L, rules[1..], acc + here.value);
        var rest := RunAll(fs, L, rules[1..]);
        if rest.Ok? {
          ConcatAssoc(acc, here.value, rest.value);
        }
      }
    } else {
      assert acc + [] == acc;
    }
  }

  lemma NoFatalAhead(rules: seq<Rule>)
    requires rules != [] && AllLinksExist !in rules
    ensures rules[0] != AllLinksExist && AllLinksExist !in rules[1..]
  {
    assert rules[0] in rules;
  }

  lemma ConcatAssoc<T>(a: seq<T>, b: seq<T>, c: seq<T>)
    ensures a + b + c == a + (b + c)
  {
  }

  /** Any dangling link stops the check after the first rule: its messages, one per
      dangling link, are all the list holds. */
  lemma CheckStopsAtDanglingLinks(fs: FS, L: Listing)
    requires DanglingLinks(fs, Notes(L)).Ok? && DanglingLinks(fs, Notes(L)).value != []
    ensures CheckSpec(fs, L) == Entries(DanglingLinks(fs, Notes(L)))
  {
    var r := RunRule(AllLinksExist, fs, L);
    assert r == Entries(DanglingLinks(fs, Notes(L)));
    var none: seq<Entry> := [];
    assert none + r.value == r.value;
    FirstRule(fs, L, none);
  }

  /** The first registered rule is the fatal one. */
  lemma FirstRule(fs: FS, L: Listing, acc: seq<Entry>)
    ensures var r := RunRule(AllLinksExist, fs, L);
      CheckFrom(fs, L, Rules, acc) ==
        if r.Err? then Err(r.error)
        else if acc + r.value != [] then Ok(acc + r.value)
        else CheckFrom(fs, L, Rules[1..], acc + r.value)
  {
    assert Rules[0] == AllLinksExist;
  }

  /** With no dangling link, the check runs the five other rules in order into one list. */
  lemma CheckRunsEveryRule(fs: FS, L: Listing)
    requires DanglingLinks(fs, Notes(L)) == Ok([])
    ensures CheckSpec(fs, L) == RunAll(fs, L, Rules[1..])
  {
    var none: seq<Entry> := [];
    assert RunRule(AllLinksExist, fs, L) == Ok([]);
    FirstRule(fs, L, none);
    assert AllLinksExist !in Rules[1..];
    CheckFromRunsAll(fs, L, Rules[1..], none);
    var all := RunAll(fs, L, Rules[1..]);
    if all.Ok? {
      assert none + all.value == all.value;
    }
  }

  /** A rule that raises makes the whole check raise, unless dangling links stopped it first. */
  lemma CheckRaises(fs: FS, L: Listing)
    ensures DanglingLinks(fs, Notes(L)).Err? ==> CheckSpec(fs, L) == Err(DanglingLinks(fs, Notes(L)).error)
    ensures CheckSpec(fs, L).Err? ==> exists rule :: rule in Rules && RunRule(rule, fs, L) == Err(CheckSpec(fs, L).error)
  {
    assert Rules[0] == AllLinksExist;
    if DanglingLinks(fs, Notes(L)) == Ok([]) {
      CheckRunsEveryRule(fs, L);
      if CheckSpec(fs, L).Err? {
        var i :| 0 <= i < |Rules[1..]| && RunRule(Rules[1..][i], fs, L) == Err(CheckSpec(fs, L).error);
        assert Rules[1..][i] in Rules;
      }
    }
  }

  /** What each rule demands of the network, stated without the rule's own scan. */
  ghost predicate Holds(rule: Rule, fs: FS, L: Listing)
  {
    match rule
    case AllLinksExist => forall n :: n in Notes(L) ==> LinksResolve(fs, n)
    case LinksBidirectional => forall n :: n in Notes(L) ==> Recip(fs, n)
    case ProjectsLinkTopics =>
      forall p :: p in L.projects ==> exists y :: y in LinksAt(fs, p) && KeyType(y) == "topic"
    case ThoughtsLinkTopicsOrProjects =>
      forall t :: t in L.thoughts ==> exists y :: y in LinksAt(fs, t) && KeyType(y) in {"topic", "project"}
    case NonNotesHavePredecessor =>
      forall x :: x in Attachments(L) ==> exists n :: n in Notes(L) && x in LinksAt(fs, n)
    case TopicsConnected =>
      L.topics != [] && forall S, t :: L.topics[0] in S && Closed(fs, S) && t in L.topics ==> t in S
  }

  /** Each rule, when it returns, adds nothing exactly when what it demands holds. */
  lemma RuleCleanIff(rule: Rule, fs: FS, L: Listing)
    requires RunRule(rule, fs, L).Ok?
    ensures RunRule(rule, fs, L).value == [] <==> Holds(rule, fs, L)
  {
    match rule
    case AllLinksExist => DanglingLinksNone(fs, Notes(L));
    case LinksBidirectional => OneWayLinksNone(fs, Notes(L));
    case ProjectsLinkTopics => ProjectsCleanIff(fs, L.projects);
    case ThoughtsLinkTopicsOrProjects => ThoughtsCleanIff(fs, L.thoughts);
    case NonNotesHavePredecessor => OrphansCleanIff(fs, Notes(L), Attachments(L));
    case TopicsConnected => ConnectivityCleanIff(fs, L.topics);
  }

  lemma ProjectsCleanIff(fs: FS, projects: seq<string>)
    requires ProjectsWithoutTopics(fs, projects).Ok?
    ensures ProjectsWithoutTopics(fs, projects).value == [] <==>
      forall p :: p in projects ==> exists y :: y in LinksAt(fs, p) && KeyType(y) == "topic"
  {
    var r := ProjectsWithoutTopics(fs, projects).value;
    if r != [] {
      assert r[0] in r;
    }
  }

  lemma ThoughtsCleanIff(fs: FS, thoughts: seq<string>)
    requires ThoughtsWithoutTopicsOrProjects(fs, thoughts).Ok?
    ensures ThoughtsWithoutTopicsOrProjects(fs, thoughts).value == [] <==>
      forall t :: t in thoughts ==> exists y :: y in LinksAt(fs, t) && KeyType(y) in {"topic", "project"}
  {
    var r := ThoughtsWithoutTopicsOrProjects(fs, thoughts).value;
    if r != [] {
      assert r[0] in r;
    }
  }

  lemma OrphansCleanIff(fs: FS, notes: seq<string>, nodes: seq<string>)
    requires Orphans(fs, notes, nodes).Ok?
    ensures Orphans(fs, notes, nodes).value == [] <==>
      forall x :: x in nodes ==> exists n :: n in notes && x in LinksAt(fs, n)
  {
    var r := Orphans(fs, notes, nodes).value;
    if r != [] {
      assert r[0] in r;
    }
  }

  lemma ConnectivityCleanIff(fs: FS, topics: seq<string>)
    requires Connectivity(fs, topics).Ok?
    ensures Connectivity(fs, topics).value == [] <==>
      topics != [] && forall S, t :: topics[0] in S && Closed(fs, S) && t in topics ==> t in S
  {
    ConnectivityReportsUnreached(fs, topics);
    var r := Connectivity(fs, topics).value;
    if r != [] {
      var t :| t in r[0].topics;
      var S :| topics[0] in S && Closed(fs, S) && t !in S;
    }
  }

  /** From any point on, the check adds nothing exactly when nothing is in the list yet and
      every remaining rule's demand holds. */
  lemma {:induction false} CheckFromCleanIff(fs: FS, L: Listing, rules: seq<Rule>, acc: seq<Entry>)
    requires CheckFrom(fs, L, rules, acc).Ok?
    ensures CheckFrom(fs, L, rules, acc).value == [] <==>
      acc == [] && forall i :: 0 <= i < |rules| ==> Holds(rules[i], fs, L)
    decreases |rules|
  {
    if rules != [] {
      var r := RunRule(rules[0], fs, L);
      RuleCleanIff(rules[0], fs, L);
      if !Fatal(rules[0], acc + r.value) {
        CheckFromCleanIff(fs, L, rules[1..], acc + r.value);
        assert forall i :: 1 <= i < |rules| ==> rules[i] == rules[1..][i - 1];
      }
    }
  }

  /** A network that meets all six demands. */
  ghost predicate MeetsAllRules(fs: FS, L: Listing)
  {
    Holds(AllLinksExist, fs, L) && Holds(LinksBidirectional, fs, L) && Holds(ProjectsLinkTopics, fs, L) &&
    Holds(ThoughtsLinkTopicsOrProjects, fs, L) && Holds(NonNotesHavePredecessor, fs, L) &&
    Holds(TopicsConnected, fs, L)
  }

  /** `check` returns an empty list exactly when the network meets all six demands. */
  lemma CheckCleanIff(fs: FS, L: Listing)
    requires CheckSpec(fs, L).Ok?
    ensures CheckSpec(fs, L).value == [] <==> MeetsAllRules(fs, L)
  {
    CheckFromCleanIff(fs, L, Rules, []);
    EveryRuleHolds(fs, L);
  }

  lemma EveryRuleHolds(fs: FS, L: Listing)
    ensures (forall i :: 0 <= i < |Rules| ==> Holds(Rules[i], fs, L)) <==> MeetsAllRules(fs, L)
  {
    assert Rules[0] == AllLinksExist && Rules[1] == LinksBidirectional && Rules[2] == ProjectsLinkTopics;
    assert Rules[3] == ThoughtsLinkTopicsOrProjects && Rules[4] == NonNotesHavePredecessor;
    assert Rules[5] == TopicsConnected;
  }

  /** Two topics, `a` and `b`; `a`'s file links to it under the alias `a.md`. */
  function AliasDisk(): FS
  {
    map[["a.md"] := File("- [[a.md]]"), ["b.md"] := File("")]
  }

  lemma NodePathOfLetter(c: char)
    requires c != '.' && c != '/' && c != ':'
    ensures NodePath([c]) == [[c] + ".md"]
  {
    assert Join([[c]], ':') == [c];
    assert RFind([c], '.') < 1;
    NodePathOfPlainNote([[c]]);
  }

  lemma NodePathOfA()
    ensures NodePath("a") == ["a.md"]
  {
    NodePathOfLetter('a');
    assert ['a'] == "a" && ['a'] + ".md" == "a.md";
  }

  lemma NodePathOfAlias()
    ensures NodePath("a.md") == ["a.md"] && KeyType("a.md") == "topic"
  {
    PlainKeyParts(["a.md"]);
    assert Join(["a.md"], ':') == "a.md";
    SuffixOfMd("a");
    assert "a" + ".md" == "a.md";
  }

  lemma LinksOfAlias()
    ensures Links("- [[a.md]]") == ["a.md"]
  {
    assert "- [[" + "a.md" + "]]" == "- [[a.md]]";
    LinkLineHoldsKey("a.md");
  }

  /** What both disks hold: the file of `a`, reachable under either key. */
  predicate HoldsAlias(fs: FS)
  {
    ["a.md"] in fs && fs[["a.md"]] == File("- [[a.md]]")
  }

  lemma AliasContents(fs: FS)
    requires HoldsAlias(fs)
    ensures Contents(fs, "a") == Ok("- [[a.md]]") && Contents(fs, "a.md") == Ok("- [[a.md]]")
    ensures Exists(fs, "a.md") && KeyType("a.md") == "topic"
  {
    NodePathOfA();
    NodePathOfAlias();
  }

  lemma ResolvesToTopic(fs: FS, k: string)
    requires Exists(fs, k) && KeyType(k) == "topic"
    ensures OfTypes(fs, [k], {"topic"}) == Ok([k])
  {
    assert [k][0] == k && [k][1..] == [];
    assert OfTypes(fs, [], {"topic"}) == Ok([]);
    assert [k] + [] == [k];
  }

  lemma AliasNeighbors(fs: FS)
    requires HoldsAlias(fs)
    ensures TopicNeighbors(fs, "a") == Ok(["a.md"]) && TopicNeighbors(fs, "a.md") == Ok(["a.md"])
  {
    AliasContents(fs);
    ResolvesToTopic(fs, "a.md");
    LinksOfAlias();
  }

  /** A key whose only topic link is one already seen is popped and pushes nothing. */
  lemma WalkPopsSeen(fs: FS, k: string, seen: set<string>, calls: seq<string>)
    requires seen <= AllLinks(fs) && k in seen
    requires TopicNeighbors(fs, k) == Ok([k])
    ensures WalkFrom(fs, [k], seen, calls) == Ok(calls + [k])
  {
    assert [k][..0] == [] && [k][0] == k;
    assert PushNew([], seen, [k]) == ([], seen);
  }

  /** A key whose only topic link is new pushes that link. */
  lemma WalkPushesNew(fs: FS, u: string, k: string, calls: seq<string>)
    requires k in AllLinks(fs)
    requires TopicNeighbors(fs, u) == Ok([k])
    ensures WalkFrom(fs, [u], {}, calls) == WalkFrom(fs, [k], {k}, calls + [u])
  {
    assert [u][..0] == [] && [u][0] == u;
    assert PushNew([], {}, [k]) == ([k], {k}) by {
      assert [k][..0] == [] && [k][0] == k;
      assert PushNew([], {}, []) == ([], {});
      assert [] + [k] == [k] && {} + {k} == {k};
    }
  }

  lemma AliasLinked(fs: FS)
    requires HoldsAlias(fs)
    ensures "a.md" in AllLinks(fs)
  {
    LinksOfAlias();
    assert "a.md" in Links(fs[["a.md"]].text);
  }

  lemma WalkOfAliasHead(fs: FS, a: string, am: string)
    requires am in AllLinks(fs)
    requires TopicNeighbors(fs, a) == Ok([am])
    ensures WalkSpec(fs, a) == WalkFrom(fs, [am], {am}, [a])
  {
    var none: seq<string> := [];
    WalkPushesNew(fs, a, am, none);
    assert none + [a] == [a];
  }

  lemma WalkOfAliasTail(fs: FS, a: string, am: string)
    requires am in AllLinks(fs)
    requires TopicNeighbors(fs, am) == Ok([am])
    ensures {am} <= AllLinks(fs)
    ensures WalkFrom(fs, [am], {am}, [a]) == Ok([a, am])
  {
    WalkPopsSeen(fs, am, {am}, [a]);
    assert [a] + [am] == [a, am];
  }

  /** A root whose only topic link is a second key that links only to itself: the walk
      visits the two and stops. */
  lemma WalkOfAlias(fs: FS, a: string, am: string)
    requires am in AllLinks(fs)
    requires TopicNeighbors(fs, a) == Ok([am]) && TopicNeighbors(fs, am) == Ok([am])
    ensures WalkSpec(fs, a) == Ok([a, am])
  {
    WalkOfAliasHead(fs, a, am);
    WalkOfAliasTail(fs, a, am);
  }

  /** What the walk visits is closed under topic links, so the two keys are. */
  lemma ClosedOfAlias(fs: FS, a: string, am: string)
    requires am in AllLinks(fs)
    requires TopicNeighbors(fs, a) == Ok([am]) && TopicNeighbors(fs, am) == Ok([am])
    ensures Closed(fs, {a, am})
  {
    WalkOfAlias(fs, a, am);
    WalkVisitsClosure(fs, a);
    PairSet(a, am);
  }

  lemma PairSet(a: string, b: string)
    ensures (set x | x in [a, b]) == {a, b}
  {
  }

  /** From `a` the walk pops `a`, then the alias `a.md`, and stops: `b` is never reached. */
  lemma AliasWalk(fs: FS)
    requires HoldsAlias(fs)
    ensures WalkSpec(fs, "a") == Ok(["a", "a.md"])
    ensures Closed(fs, {"a", "a.md"})
  {
    AliasNeighbors(fs);
    AliasLinked(fs);
    WalkOfAlias(fs, "a", "a.md");
    ClosedOfAlias(fs, "a", "a.md");
  }

  lemma VisitedPair(a: string, b: string)
    ensures Visited([a, b]) == {a, b} && (set t | t in [a, b]) == {a, b}
  {
  }

  lemma PairSize(a: string, b: string)
    requires a != b
    ensures |{a, b}| == 2
  {
  }

  lemma VisitedOne(a: string)
    ensures (set t | t in [a]) == {a}
  {
  }

  /** Two distinct keys visited, and two topics of which only the root is among them:
      the count matches although the second topic was never reached. */
  lemma CountMissesTopic(fs: FS, a: string, am: string, b: string)
    requires WalkSpec(fs, a) == Ok([a, am])
    requires a != am && b != a && b != am
    ensures ConnectivityAsWritten(fs, [a, b]) == Ok([])
  {
    VisitedPair(a, am);
    VisitedPair(a, b);
    PairSize(a, am);
    PairSize(a, b);
  }

  lemma UnvisitedNamesTopic(fs: FS, a: string, am: string, b: string)
    requires WalkSpec(fs, a) == Ok([a, am])
    requires a != am && b != a && b != am
    ensures Connectivity(fs, [a, b]) == Ok([OneOf({b}, a)])
  {
    VisitedPair(a, am);
    VisitedPair(a, b);
    assert {a, b} - {a, am} == {b};
  }

  /** Two distinct keys visited and one topic, the root: the counts differ, yet no topic
      is left unvisited. */
  lemma CountPopsNothing(fs: FS, a: string, am: string)
    requires WalkSpec(fs, a) == Ok([a, am])
    requires a != am
    ensures ConnectivityAsWritten(fs, [a]) == Err(PopFromEmptySet)
  {
    VisitedPair(a, am);
    VisitedOne(a);
    PairSize(a, am);
    assert {a} - {a, am} == {};
  }

  lemma UnvisitedNone(fs: FS, a: string, am: string)
    requires WalkSpec(fs, a) == Ok([a, am])
    ensures Connectivity(fs, [a]) == Ok([])
  {
    VisitedPair(a, am);
    VisitedOne(a);
    assert {a} - {a, am} == {};
  }

  /** As written, the rule misses the unreachable topic `b`: the two keys visited, `a` and
      its alias, are as many as the two topics. Corrected, it names `b`. */
  lemma AsWrittenMissesUnreachedTopic(fs: FS)
    requires fs == AliasDisk()
    ensures ConnectivityAsWritten(fs, ["a", "b"]) == Ok([])
    ensures Connectivity(fs, ["a", "b"]) == Ok([OneOf({"b"}, "a")])
    ensures Closed(fs, {"a", "a.md"})
  {
    AliasWalk(fs);
    CountMissesTopic(fs, "a", "a.md", "b");
    UnvisitedNamesTopic(fs, "a", "a.md", "b");
  }

  /** As written, a lone topic that links to itself under an alias makes the rule pop from
      an empty set: the check raises instead of returning. Corrected, it reports nothing. */
  lemma AsWrittenPopsFromEmptySet(fs: FS)
    requires fs == map[["a.md"] := File("- [[a.md]]")]
    ensures ConnectivityAsWritten(fs, ["a"]) == Err(PopFromEmptySet)
    ensures Connectivity(fs, ["a"]) == Ok([])
  {
    AliasWalk(fs);
    CountPopsNothing(fs, "a", "a.md");
    UnvisitedNone(fs, "a", "a.md");
  }
}
